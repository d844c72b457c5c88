/**
 * The live bus-allocation handlers: allocate (upsert by student), update the whole
 * record, delete, and the two filtered listings.
 */
module BusAllocationController {
  import opened Common
  import opened Models
  import opened Store

  datatype Reason =
    | FieldsRequired
    | InvalidAllocationId
    | CastFailure
    | StudentNotFound
    | BusNotFound
    | DestinationMismatch(busTo: string, given: string)
    | AllocationNotFound
    | AllocationCreated
    | AllocationUpdated
    | AllocationDeleted
    | BusNumberNotFound(busNumber: string)
    | InvalidDriverId
    | DriverNotFound
    | NoActiveBus

  /** Some allocation names this student. */
  predicate HoldsAllocation(allocations: map<Id, Allocation>, studentId: Id) {
    exists k :: k in allocations && allocations[k].studentId == studentId
  }

  /** The request names an existing student and an existing bus that goes where the request says. */
  predicate Resolves(students: map<Id, Student>, buses: map<Id, Bus>, studentId: Id, busId: Id, to: string) {
    Given(to) && ValidId(studentId) && ValidId(busId) &&
    studentId in students && busId in buses && buses[busId].to == to
  }

  /**
   * The checks allocateBus and updateAllocation share, in the order they run; None when
   * every check passes. Both lookups run (and may fail to cast their id) before either
   * result is tested, and the student is tested before the bus.
   */
  function RequestCheck(students: map<Id, Student>, buses: map<Id, Bus>,
                        studentId: Id, busId: Id, to: string): (r: Option<Response<Reason>>)
    ensures r.None? <==> Resolves(students, buses, studentId, busId, to)
    ensures !Given(studentId) || !Given(busId) || !Given(to) ==> r == Some(Response(400, FieldsRequired))
    ensures Given(studentId) && Given(busId) && Given(to) && !(ValidId(studentId) && ValidId(busId)) ==>
              r == Some(Response(500, CastFailure))
    ensures Given(to) && ValidId(studentId) && ValidId(busId) && studentId !in students ==>
              r == Some(Response(404, StudentNotFound))
    ensures Given(to) && ValidId(studentId) && ValidId(busId) && studentId in students && busId !in buses ==>
              r == Some(Response(404, BusNotFound))
    ensures Given(to) && ValidId(studentId) && ValidId(busId) && studentId in students && busId in buses &&
            buses[busId].to != to ==>
              r == Some(Response(400, DestinationMismatch(buses[busId].to, to)))
  {
    if !Given(studentId) || !Given(busId) || !Given(to) then Some(Response(400, FieldsRequired))
    else if !ValidId(studentId) || !ValidId(busId) then Some(Response(500, CastFailure))
    else if studentId !in students then Some(Response(404, StudentNotFound))
    else if busId !in buses then Some(Response(404, BusNotFound))
    else if buses[busId].to != to then Some(Response(400, DestinationMismatch(buses[busId].to, to)))
    else None
  }

  /**
   * allocateBus: after the shared checks, overwrite busId and to of an allocation the
   * student already holds (200), or create one (201). `newId` is the id the database
   * gives a new document.
   */
  method AllocateBus(db: Db, studentId: Id, busId: Id, to: string, newId: Id, now: int)
    returns (r: Response<Reason>)
    requires newId !in db.allocations
    modifies db`allocations
    ensures RequestCheck(db.students, db.buses, studentId, busId, to).Some? ==>
              r == RequestCheck(db.students, db.buses, studentId, busId, to).value &&
              db.allocations == old(db.allocations)
    ensures Resolves(db.students, db.buses, studentId, busId, to) &&
            HoldsAllocation(old(db.allocations), studentId) ==>
              r == Response(200, AllocationUpdated) &&
              exists k :: k in old(db.allocations) && old(db.allocations)[k].studentId == studentId &&
                db.allocations == old(db.allocations)[k := old(db.allocations)[k].(busId := busId, to := to)]
    ensures Resolves(db.students, db.buses, studentId, busId, to) &&
            !HoldsAllocation(old(db.allocations), studentId) ==>
              r == Response(201, AllocationCreated) &&
              db.allocations == old(db.allocations)[newId := Allocation(studentId, busId, to, now)]
    ensures r.code == 200 || r.code == 201 ==>
              exists k :: k in db.allocations && db.allocations[k].studentId == studentId &&
                db.allocations[k].busId == busId && db.allocations[k].to == to
    ensures old(OneAllocationPerStudent(db.allocations)) ==> OneAllocationPerStudent(db.allocations)
  {
    var check := RequestCheck(db.students, db.buses, studentId, busId, to);
    if check.Some? {
      return check.value;
    }
    if HoldsAllocation(db.allocations, studentId) {
      var k :| k in db.allocations && db.allocations[k].studentId == studentId;
      db.allocations := db.allocations[k := db.allocations[k].(busId := busId, to := to)];
      assert db.allocations[k].studentId == studentId;
      r := Response(200, AllocationUpdated);
    } else {
      db.allocations := db.allocations[newId := Allocation(studentId, busId, to, now)];
      assert db.allocations[newId].studentId == studentId;
      r := Response(201, AllocationCreated);
    }
  }

  /**
   * updateAllocation: the id is checked first, then the shared checks, and only then
   * whether the allocation exists; student, bus and destination are overwritten together.
   */
  method UpdateAllocation(db: Db, id: Id, studentId: Id, busId: Id, to: string)
    returns (r: Response<Reason>)
    modifies db`allocations
    ensures !ValidId(id) ==> r == Response(400, InvalidAllocationId) && db.allocations == old(db.allocations)
    ensures ValidId(id) && RequestCheck(db.students, db.buses, studentId, busId, to).Some? ==>
              r == RequestCheck(db.students, db.buses, studentId, busId, to).value &&
              db.allocations == old(db.allocations)
    ensures ValidId(id) && Resolves(db.students, db.buses, studentId, busId, to) && id !in old(db.allocations) ==>
              r == Response(404, AllocationNotFound) && db.allocations == old(db.allocations)
    ensures ValidId(id) && Resolves(db.students, db.buses, studentId, busId, to) && id in old(db.allocations) ==>
              r == Response(200, AllocationUpdated) &&
              db.allocations == old(db.allocations)[id := Reassigned(old(db.allocations)[id], studentId, busId, to)]
  {
    if !ValidId(id) {
      return Response(400, InvalidAllocationId);
    }
    var check := RequestCheck(db.students, db.buses, studentId, busId, to);
    if check.Some? {
      return check.value;
    }
    if id !in db.allocations {
      return Response(404, AllocationNotFound);
    }
    db.allocations := db.allocations[id := Reassigned(db.allocations[id], studentId, busId, to)];
    r := Response(200, AllocationUpdated);
  }

  /** The whole-record overwrite of updateAllocation; the allocation time is kept. */
  function Reassigned(a: Allocation, studentId: Id, busId: Id, to: string): (b: Allocation)
    ensures b.studentId == studentId && b.busId == busId && b.to == to && b.allocatedAt == a.allocatedAt
  {
    a.(studentId := studentId, busId := busId, to := to)
  }

  /**
   * Overwriting one allocation keeps "one allocation per student" exactly when no other
   * allocation already names the new student: updateAllocation does not check this.
   */
  lemma {:induction false} ReassignKeepsOnePerStudentIff(allocations: map<Id, Allocation>, id: Id,
                                                         studentId: Id, busId: Id, to: string)
    requires OneAllocationPerStudent(allocations) && id in allocations
    ensures OneAllocationPerStudent(allocations[id := Reassigned(allocations[id], studentId, busId, to)]) <==>
            forall k :: k in allocations && k != id ==> allocations[k].studentId != studentId
  {
    var after := allocations[id := Reassigned(allocations[id], studentId, busId, to)];
    if k :| k in allocations && k != id && allocations[k].studentId == studentId {
      assert after[k].studentId == after[id].studentId;
    }
  }

  /** deleteAllocation: the id is checked, then exactly that allocation is removed. */
  method DeleteAllocation(db: Db, id: Id) returns (r: Response<Reason>)
    modifies db`allocations
    ensures !ValidId(id) ==> r == Response(400, InvalidAllocationId) && db.allocations == old(db.allocations)
    ensures ValidId(id) && id !in old(db.allocations) ==>
              r == Response(404, AllocationNotFound) && db.allocations == old(db.allocations)
    ensures ValidId(id) && id in old(db.allocations) ==>
              r == Response(200, AllocationDeleted) && db.allocations == old(db.allocations) - {id}
    ensures old(OneAllocationPerStudent(db.allocations)) ==> OneAllocationPerStudent(db.allocations)
  {
    if !ValidId(id) {
      return Response(400, InvalidAllocationId);
    }
    if id !in db.allocations {
      return Response(404, AllocationNotFound);
    }
    db.allocations := db.allocations - {id};
    r := Response(200, AllocationDeleted);
  }

  /** An allocation with its student and bus filled in; a dangling reference fills in as None. */
  datatype AllocationView = AllocationView(allocation: Allocation, student: Option<Student>, bus: Option<Bus>)

  function Populate(students: map<Id, Student>, buses: map<Id, Bus>, a: Allocation): (v: AllocationView)
    ensures v.allocation == a
    ensures v.student.Some? <==> a.studentId in students
    ensures v.bus.Some? <==> a.busId in buses
    ensures v.student.Some? ==> v.student.value == students[a.studentId]
    ensures v.bus.Some? ==> v.bus.value == buses[a.busId]
  {
    AllocationView(a,
                   if a.studentId in students then Some(students[a.studentId]) else None,
                   if a.busId in buses then Some(buses[a.busId]) else None)
  }

  /** The populated allocations whose bus is one of `busIds`. */
  function ViewsOn(students: map<Id, Student>, buses: map<Id, Bus>, allocations: map<Id, Allocation>,
                   busIds: set<Id>): map<Id, AllocationView>
  {
    map k | k in allocations && allocations[k].busId in busIds :: Populate(students, buses, allocations[k])
  }

  function BusesNumbered(buses: map<Id, Bus>, busNumber: string): set<Id> {
    set b | b in buses && buses[b].busNumber == busNumber
  }

  /**
   * getAllAllocations: every allocation when no bus number is given; otherwise those on the
   * bus with that number, or 404 when no bus has it.
   */
  function GetAllAllocations(students: map<Id, Student>, buses: map<Id, Bus>,
                             allocations: map<Id, Allocation>, busNumber: string)
    : (r: Reply<Reason, map<Id, AllocationView>>)
    ensures !Given(busNumber) ==>
              r.Found? && r.value.Keys == allocations.Keys
    ensures Given(busNumber) && (forall b :: b in buses ==> buses[b].busNumber != busNumber) ==>
              r == Refused(404, BusNumberNotFound(busNumber))
    ensures Given(busNumber) && UniqueBusNumbers(buses) ==>
              forall b :: b in buses && buses[b].busNumber == busNumber ==>
                r.Found? && forall k :: k in r.value <==> k in allocations && allocations[k].busId == b
    ensures r.Found? ==> forall k :: k in r.value ==>
              k in allocations && r.value[k] == Populate(students, buses, allocations[k])
  {
    if !Given(busNumber) then
      Found(map k | k in allocations :: Populate(students, buses, allocations[k]))
    else
      if forall b :: b in buses ==> buses[b].busNumber != busNumber then Refused(404, BusNumberNotFound(busNumber))
      else Found(ViewsOn(students, buses, allocations, BusesNumbered(buses, busNumber)))
  }

  function ActiveBusesOf(buses: map<Id, Bus>, driverId: Id): set<Id> {
    set b | b in buses && buses[b].driverId == driverId && buses[b].status == "Active"
  }

  /**
   * getDriverAllocations: a malformed id is 400, an unknown driver 404, a driver without an
   * Active bus 404 (not an empty list); otherwise the allocations on that driver's bus.
   */
  function GetDriverAllocations(drivers: map<Id, Driver>, students: map<Id, Student>, buses: map<Id, Bus>,
                                allocations: map<Id, Allocation>, driverId: Id)
    : (r: Reply<Reason, map<Id, AllocationView>>)
    ensures !ValidId(driverId) ==> r == Refused(400, InvalidDriverId)
    ensures ValidId(driverId) && driverId !in drivers ==> r == Refused(404, DriverNotFound)
    ensures ValidId(driverId) && driverId in drivers &&
            (forall b :: b in buses && buses[b].driverId == driverId ==> buses[b].status != "Active") ==>
              r == Refused(404, NoActiveBus)
    ensures OneBusPerDriver(buses) && ValidId(driverId) && driverId in drivers ==>
              forall b :: b in buses && buses[b].driverId == driverId && buses[b].status == "Active" ==>
                r.Found? && forall k :: k in r.value <==> k in allocations && allocations[k].busId == b
    ensures r.Found? ==> forall k :: k in r.value ==>
              k in allocations && r.value[k] == Populate(students, buses, allocations[k])
  {
    if !ValidId(driverId) then Refused(400, InvalidDriverId)
    else if driverId !in drivers then Refused(404, DriverNotFound)
    else
      if forall b :: b in buses && buses[b].driverId == driverId ==> buses[b].status != "Active" then
        Refused(404, NoActiveBus)
      else Found(ViewsOn(students, buses, allocations, ActiveBusesOf(buses, driverId)))
  }
}

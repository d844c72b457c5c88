/** The documents of the collections the handlers read and write (the mongoose schemas). */
module Models {
  import opened Common

  /** The fixed origin every bus is given. */
  const University := "Uka Tarsadia University"

  /** Folder prefix under which the face service stores a student's reference image. */
  const UploadsPrefix := "../face-service/uploads/"

  /** Milliseconds in one day: a day is the window [d * DayMs, d * DayMs + DayMs - 1]. */
  const DayMs := 86400000

  datatype Student = Student(envNumber: string, name: string, email: string, imagePath: string)

  /** Driver.status is "Active" or "Inactive" by schema; the handlers compare it with "Active". */
  datatype Driver = Driver(name: string, status: string)

  /**
   * A bus. `status` is a string because an update writes it without schema validation;
   * `allocatedSeats` is declared by the schema and written by no handler.
   */
  datatype Bus = Bus(busNumber: string, from: string, to: string, capacity: int,
                     driverId: Id, status: string, allocatedSeats: seq<string>)

  /**
   * A student's bus allocation. The destination `to` is written by the handlers although the
   * schema does not declare it; the model keeps it as a stored field.
   */
  datatype Allocation = Allocation(studentId: Id, busId: Id, to: string, allocatedAt: int)

  /** Coordinates are opaque to the handlers: they are stored and returned, never computed on. */
  type Coordinate = Option<real>

  datatype DriverLocation = DriverLocation(driverId: Id, latitude: Coordinate, longitude: Coordinate,
                                           address: string, shareStatus: bool, updatedAt: int)

  /** A fee record; `duration` is required by the schema to be "1month", "6months" or "1year". */
  datatype Fee = Fee(envNumber: string, studentName: string, route: string, feeAmount: int,
                     duration: string, isPaid: bool, paymentDate: Option<int>,
                     transactionId: Option<string>)

  /** A notification; `kind` is the schema's `type` field (Emergency, Delay, ...). */
  datatype Notification = Notification(kind: string, message: string, recipients: seq<string>, date: int)

  datatype AttendanceRecord = AttendanceRecord(studentId: Id, date: int, status: string)

  predicate IsDuration(s: string) {
    s == "1month" || s == "6months" || s == "1year"
  }

  predicate IsBusStatus(s: string) {
    s == "Active" || s == "Inactive"
  }
}

# Campus bus backend: a Dafny model of its request handlers

This project models the validate-then-mutate request handlers of a campus shuttle-bus
backend: bus allocations, the bus registry, driver location sharing, fees and payment
verification, notifications, and attendance. The document database is a `Store.Db`
object. Collections looked up by id are maps from id to document. Notifications and
attendance records are sequences in stored order, because the handlers observe that
order. Each handler is one atomic step that returns an HTTP status with a reason
(`Common.Response`, `Common.Reply`) and changes only the collection its `modifies`
clause names.

Modelling conventions:

- A string request field that the source tests with `!x` is a `string`; `""` stands for
  both "absent" and "empty", since the source treats them alike. A numeric field
  (`capacity`, `feeAmount`) is an `int`, and `0` stands for both "absent" and zero.
- `ValidId` is the object-id syntax check: 24 hexadecimal digits. A lookup by id on a
  string that fails it raises a cast error, and the handler's catch-all answers 500
  (`CastFailure`).
- A lookup by a field that no unique index protects (`findOne`) picks some matching
  document. The methods state this with `exists`.
- A new document's id is a parameter that must be fresh (`newId !in ...`), because the
  database generates it. The clock is a parameter `now`, in milliseconds. A day is an
  integer `d` covering the window `[d * DayMs, d * DayMs + DayMs - 1]`.
- HMAC-SHA256 is the function parameter `hmac(secret, body)`. The face-recognition
  result is an input. The push sent after a notification is stored is a logged side
  effect: its helper catches its own errors, so it never changes the answer.
- Allocations store a destination `to`. The handlers write it, although the
  BusAllocation schema does not declare it. The model assumes the field is stored.
- The allocation handlers have no seat numbers, capacity checks or transactions.
  `Bus.allocatedSeats` (models/Bus.js:11) is a field that no handler writes.
- `getAttendanceByDate` returns rows in the student collection's order, not in the
  order of the requested ids. It drops unknown ids and collapses repeated ids. The model
  returns the rows as a map keyed by student id.

Invariants stated and preserved (each as `old(P) ==> P` on the handlers that write the collection):
`UniqueBusNumbers` and `OneBusPerDriver` (bus handlers), `OneLocationPerDriver`
(location handlers), `OneAllocationPerStudent` (allocateBus, deleteAllocation; updateAllocation
keeps it exactly when `ReassignKeepsOnePerStudentIff` says so), `PaidFeesKept` (fee
handlers: a fee is paid at most once and keeps its first transaction), `OnePerDay`
(markAttendance).

## Model

| member | source | states |
|---|---|---|
| BusAllocationController.RequestCheck | node-backend/controllers/busAllocationController.js:124-147 | The request passes exactly when the destination is given, both ids are well formed, student and bus exist, and the bus goes to `to`. Check order: missing field 400, malformed id 500, unknown student 404 before unknown bus 404, destination mismatch 400 naming both destinations. |
| BusAllocationController.AllocateBus | node-backend/controllers/busAllocationController.js:120-170 | A failed check changes nothing. If the student has an allocation, only its busId and to are overwritten (200). Otherwise exactly one allocation is added (201). Afterwards the student holds an allocation on that bus and destination. One allocation per student is preserved. |
| BusAllocationController.UpdateAllocation | node-backend/controllers/busAllocationController.js:173-225 | A malformed id gives 400 first. The shared checks come next. An absent allocation gives 404 last. On success, studentId, busId and to of that allocation are overwritten together, and nothing else changes. |
| BusAllocationController.Reassigned | node-backend/controllers/busAllocationController.js:214-216 | The whole-record overwrite sets student, bus and destination and keeps the allocation time. |
| BusAllocationController.ReassignKeepsOnePerStudentIff | node-backend/controllers/busAllocationController.js:214-217 | Given one allocation per student, the update keeps that invariant exactly when no other allocation names the new student. The handler does not check this, so it can create a second allocation for a student. |
| BusAllocationController.DeleteAllocation | node-backend/controllers/busAllocationController.js:228-251 | A malformed id gives 400 and an absent id 404, with no change. Otherwise exactly that allocation is removed. Buses are not touched. |
| BusAllocationController.Populate | node-backend/controllers/busAllocationController.js:271-273 | A listed allocation carries its student and bus documents, or None for a dangling reference. |
| BusAllocationController.GetAllAllocations | node-backend/controllers/busAllocationController.js:254-281 | Without a bus number, every allocation. With an unknown number, 404. With a number, exactly the allocations on the bus that has it (the number is unique). Each is populated. |
| BusAllocationController.GetDriverAllocations | node-backend/controllers/busAllocationController.js:284-320 | A malformed id gives 400 and an unknown driver 404. A driver without an Active bus gives 404, not an empty list. Otherwise exactly the allocations on the driver's bus (one bus per driver). |
| BusController.DriverCheck | node-backend/controllers/busController.js:33-43 | The shared prefix of create and update passes exactly when the four fields are given, the driver id is well formed and the driver exists. Check order: 400, 400, 404. |
| BusController.StatusOrActive | node-backend/controllers/busController.js:60 | An absent status means Active, and a given one is kept. |
| BusController.CreateBus | node-backend/controllers/busController.js:29-69 | A duplicate number gives 400, then a driver who already has a bus gives 400; neither changes anything. A status outside the enumeration fails validation (500). Otherwise one bus is added, leaving from the university, Active by default, with no seats. Unique numbers and one bus per driver are preserved. |
| BusController.UpdateBus | node-backend/controllers/busController.js:72-119 | The number check excludes the bus itself. A malformed bus id gives 500 and an absent bus 404. The driver check runs only when the driver changes. On success every field is replaced, and an absent status resets to Active. Both invariants are preserved. |
| BusController.Replaced | node-backend/controllers/busController.js:101-111 | The replaced bus has the given number, destination, capacity and driver, the university as origin, and Active when no status is given; only its allocated seats are kept. |
| BusController.DeleteBus | node-backend/controllers/busController.js:122-131 | Exactly that bus is removed. An absent id gives 404 and a malformed one 500. Allocations are not touched. |
| BusController.GetBusById | node-backend/controllers/busController.js:17-26 | The bus with its driver (None if the driver is gone). An unknown id gives 404 and a malformed one 500. |
| DriverLocationController.SharingOf | node-backend/models/DriverLocation.js:3-15 | A driver's state is NoRecord when no location document names them, On when one shares, and Off otherwise. |
| DriverLocationController.SharingOfRecord | node-backend/models/DriverLocation.js:4-9 | Under the unique index on driverId, the state is read off the driver's one record. |
| DriverLocationController.DriverLookup | node-backend/controllers/driverLocationController.js:10-13 | The driver lookup passes exactly for an existing, well-formed id. A missing or unknown id gives 404 and a malformed one 500. |
| DriverLocationController.StartLocationSharing | node-backend/controllers/driverLocationController.js:5-42 | An unknown driver gives 404 and an inactive one 403, with no change. Otherwise the driver's record is created, or its position is overwritten, and sharing becomes On. Other drivers' records are kept, and one record per driver is preserved. |
| DriverLocationController.StopLocationSharing | node-backend/controllers/driverLocationController.js:45-67 | With no record, 404 and nothing is created. Otherwise shareStatus becomes false and the coordinates are kept, so the state is Off. The driver's status is not consulted. |
| DriverLocationController.UpdateLocation | node-backend/controllers/driverLocationController.js:70-101 | With no record, 404; with sharing off, 400 and no change. Position and address are overwritten only when the state was On. |
| DriverLocationController.GetLocationSharingStatus | node-backend/controllers/driverLocationController.js:104-124 | A read: false with no record; otherwise true exactly when the state is On. Lookup failures as in DriverLookup. |
| DriverLocationController.StatusIsStoredShareStatus | node-backend/controllers/driverLocationController.js:115-120 | Under the unique index, the reported status is the stored shareStatus of the driver's record. |
| FeeController.NewFee | node-backend/controllers/feeController.js:33-34 | The document built for a new fee has no duration, so it never passes schema validation. |
| FeeController.SetStudentFee | node-backend/controllers/feeController.js:10-44 | A missing field gives 400 and an unknown student 404. An existing fee gets only its amount and route overwritten (200). A new fee fails validation (500) and nothing is created. Paid fees are kept. |
| FeeController.GetStudentFee | node-backend/controllers/feeController.js:47-68 | A missing number gives 400 and no fee 404. Otherwise a stored fee with that enrolment number. |
| FeeController.Paise | node-backend/controllers/feeController.js:93 | The paise amount is a multiple of 100 whose quotient is the rupee amount. |
| FeeController.OrderFor | node-backend/controllers/feeController.js:92-97 | The order is the fee in paise, currency INR, receipt "receipt_" + envNumber, auto-capture 1. |
| FeeController.CreatePayment | node-backend/controllers/feeController.js:71-106 | A missing number gives 400, no fee 404, and a paid fee 400. Otherwise the order for that fee. |
| FeeController.SignedBody | node-backend/controllers/feeController.js:141 | The signed text is the order id, a bar, then the payment id, and both parts can be read back from it. |
| FeeController.SignedBodyInjective | node-backend/controllers/feeController.js:141-156 | When order ids contain no bar, equal signed texts mean equal (order, payment) pairs. |
| FeeController.SignedBodyCollidesWithBars | node-backend/controllers/feeController.js:141 | With a bar inside an order id, two different pairs produce the same signed text. |
| FeeController.Paid | node-backend/controllers/feeController.js:165-167 | A verified fee is paid, with the payment date and the payment id as transaction id, and every other field is kept. |
| FeeController.VerifyPayment | node-backend/controllers/feeController.js:116-176 | Check order: missing field 400, no fee 404, no secret 500, signature different from HMAC(secret, orderId + "\|" + paymentId) 400; none of these changes anything. An already paid fee gives 200 with no change. Otherwise that fee becomes Paid. Success implies a matching signature, and paid fees are kept. |
| NotificationController.AllAudiences | node-backend/controllers/notificationController.js:14-17 | True exactly when every recipient is Students, Drivers or Both. |
| NotificationController.SendNotification | node-backend/controllers/notificationController.js:6-31 | Missing fields or an empty recipient list give 400, and so does any unknown recipient; nothing is stored. Otherwise exactly one notification with the given fields, dated now, is appended and the answer is 201. |
| NotificationController.ForRole | node-backend/controllers/notificationController.js:47-48 | Every notification naming the role or Both, each as often as stored, and no other. |
| NotificationController.Insert | node-backend/controllers/notificationController.js:49 | Inserting into a newest-first sequence keeps it newest first and adds exactly that notification. |
| NotificationController.SortNewestFirst | node-backend/controllers/notificationController.js:72 | The result is newest first and a permutation of the input. |
| NotificationController.GetUserNotifications | node-backend/controllers/notificationController.js:34-66 | A missing role gives 400, and so does a role other than Students or Drivers (Both is refused). Otherwise exactly the notifications reaching that role, newest first. |
| NotificationController.GetAllNotifications | node-backend/controllers/notificationController.js:70-89 | Every notification, newest first. |
| StudentController.InDayIffDayOf | node-backend/controllers/studentController.js:326-329 | An instant lies in a day's inclusive window exactly when that is its day. |
| StudentController.StatusMap | node-backend/controllers/studentController.js:331-339 | The map built from the report's query: every key is a requested student with a record inside the day, and its value is the status of one of those records. |
| StudentController.StatusMapDomain | node-backend/controllers/studentController.js:331-339 | The status map holds exactly the looked-up students with a record inside the day. |
| StudentController.StatusMapLastWins | node-backend/controllers/studentController.js:337-339 | The status kept for a student is that of their last record of the day. |
| StudentController.StatusOrAbsent | node-backend/controllers/studentController.js:346 | A student without a status is Absent, and a non-empty status is kept. |
| StudentController.GetAttendanceByDate | node-backend/controllers/studentController.js:318-353 | A missing date or id array gives 400 and a malformed id 500. With a date and well-formed ids, the report succeeds exactly when no record of the day names a deleted student; such a record gives 500. On success, one row per requested, existing student, with their id, name and merged status. |
| StudentController.ReportStatus | node-backend/controllers/studentController.js:336-347 | Each row's status is that of the student's last record of the day, or Absent when there is none. |
| StudentController.InMarkWindowAsWritten | node-backend/controllers/studentController.js:285-291 | The already-marked window as written is the inclusive day window minus its last millisecond. |
| StudentController.AsWrittenWindowAdmitsSecondRecord | node-backend/controllers/studentController.js:284-294 | The as-written window misses a record stamped at 23:59:59.999, so a second record for that day is accepted. |
| StudentController.MarkAttendance | node-backend/controllers/studentController.js:224-307 | No image or a vanished file gives 400, a failed face service 500, an unrecognised face 404, and an unknown reference image 404. The matched student gets one Present record at `now`, unless already marked that day (400). One record per student per day is preserved. |

## Left out

- Concurrency: each handler is one atomic step. The source interleaves at every `await` without transactions; races between a check and its write are not modelled.
- Seat numbers, seat capacity and `Bus.allocatedSeats` bookkeeping: no live handler implements them.
- The face-recognition service (its matching, warm-up ping, delay and three retries) is the input `face`. Removing the temporary upload file is I/O and is not modelled.
- The push itself (config/firebase.js:19-34) is not modelled: it catches and logs every error, so it does not affect the answer or the store. Placing the gateway order and returning the public key are external calls and are not modelled.
- The HMAC computation is the parameter `hmac`. Its exception path (500) is not modelled.
- Date formatting of listed notifications (`toLocaleDateString`), local time zones and daylight saving are not modelled. Days are integer windows.
- Field projections of `populate` and of the attendance query are not modelled: listings carry whole documents.
- The order of listed allocations and report rows is not modelled; they are returned as maps keyed by id.
- Numeric casting (a non-numeric capacity or fee amount, NaN, fractional rupees) is not modelled: amounts are integers.
- Object ids are compared as exact strings. Hex-case variants of one id and the 12-character form that some driver versions accept are not modelled.
- A recipients value that is not an array is not modelled: recipients are a sequence.
- markAttendance reads the clock twice (window and record date). The model uses one instant `now` for both.
- The second `Bus not found` of updateBus (line 113) needs a concurrent delete, so the atomic model cannot reach it.
- getAllBuses and getAllFees are unfiltered listings of a collection and are not modelled.
- The student, admin and driver CRUD handlers, authentication, the route wiring and the migration script are not part of this model.
- FeeController.SetStudentFee: saving an existing fee is assumed to pass schema validation, because stored fees were validated when created.
- FeeController.VerifyPayment: saving the paid fee is assumed to pass schema validation, for the same reason.
- BusAllocationController.GetAllAllocations: with a bus number, the result is stated for "the bus with that number" under the unique index on bus numbers.
- BusAllocationController.GetDriverAllocations: the per-bus result is stated under one bus per driver, which the bus handlers preserve.
- DriverLocationController.GetLocationSharingStatus: the stored status of "the" record is stated under the unique index on driverId.

## Findings

| source | as written | input that shows it | evidently intended | confidence | as-written member | corrected member |
|---|---|---|---|---|---|---|
| node-backend/controllers/studentController.js:285-291 | the already-marked query bounds the day with `$lt` 23:59:59.999 | a Present record stamped 23:59:59.999, then a second request in that same millisecond: the query finds nothing and a second record is stored for the day | the whole day, inclusive (`$lte`), as getAttendanceByDate uses at lines 326-334 | medium; not executed | StudentController.AsWrittenWindowAdmitsSecondRecord | StudentController.MarkAttendance |

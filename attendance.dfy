/**
 * Attendance: the per-day report (every looked-up student with the status of their last
 * record that day, Absent by default) and marking a recognised face Present once a day.
 */
module StudentController {
  import opened Common
  import opened Models
  import opened Store

  datatype Reason =
    | DateAndIdsRequired
    | CastFailure
    | MissingStudentReference
    | ImageRequired
    | FileNotFound
    | FaceServiceFailure
    | FaceNotRecognized
    | MatchedStudentNotFound
    | AlreadyMarked
    | AttendanceMarked

  function DayStart(day: int): int {
    day * DayMs
  }

  /** The report's window: from 00:00:00.000 to 23:59:59.999 of the day, both included. */
  predicate InDay(t: int, day: int) {
    DayStart(day) <= t <= DayStart(day) + DayMs - 1
  }

  /** The day an instant falls in. */
  function DayOf(t: int): int {
    t / DayMs
  }

  lemma InDayIffDayOf(t: int, day: int)
    ensures InDay(t, day) <==> DayOf(t) == day
  {
  }

  /**
   * `new Map(records.map(r => [r.studentId, r.status]))` over the records the report's
   * query returns (those of the looked-up students inside the day, in stored order):
   * a later record overwrites an earlier one.
   */
  function StatusMap(records: seq<AttendanceRecord>, ids: seq<Id>, day: int): (m: map<Id, string>)
    ensures forall sid :: sid in m ==>
              sid in ids &&
              exists i :: 0 <= i < |records| && records[i].studentId == sid && InDay(records[i].date, day) &&
                          records[i].status == m[sid]
  {
    if records == [] then map[]
    else
      var last := records[|records| - 1];
      var earlier := StatusMap(records[..|records| - 1], ids, day);
      if last.studentId in ids && InDay(last.date, day) then earlier[last.studentId := last.status] else earlier
  }

  /** Record i is the day's record of student `sid` and no later one that day is. */
  predicate LastOfDay(records: seq<AttendanceRecord>, day: int, sid: Id, i: int) {
    0 <= i < |records| && records[i].studentId == sid && InDay(records[i].date, day) &&
    forall j :: i < j < |records| ==> !(records[j].studentId == sid && InDay(records[j].date, day))
  }

  /** The map holds exactly the looked-up students with a record that day. */
  lemma {:induction false} StatusMapDomain(records: seq<AttendanceRecord>, ids: seq<Id>, day: int, sid: Id)
    ensures sid in StatusMap(records, ids, day) <==>
            sid in ids && exists i :: 0 <= i < |records| && records[i].studentId == sid && InDay(records[i].date, day)
  {
    if records != [] {
      var n := |records| - 1;
      StatusMapDomain(records[..n], ids, day, sid);
      if exists i :: 0 <= i < |records| && records[i].studentId == sid && InDay(records[i].date, day) {
        var i :| 0 <= i < |records| && records[i].studentId == sid && InDay(records[i].date, day);
        if i < n {
          assert records[..n][i] == records[i];
        }
      }
    }
  }

  /** The last record of the day wins. */
  lemma {:induction false} StatusMapLastWins(records: seq<AttendanceRecord>, ids: seq<Id>, day: int, sid: Id, i: int)
    requires sid in ids && LastOfDay(records, day, sid, i)
    ensures sid in StatusMap(records, ids, day) && StatusMap(records, ids, day)[sid] == records[i].status
  {
    var n := |records| - 1;
    if i < n {
      assert LastOfDay(records[..n], day, sid, i) by {
        forall j | i < j < n ensures !(records[..n][j].studentId == sid && InDay(records[..n][j].date, day)) {
          assert records[..n][j] == records[j];
        }
      }
      StatusMapLastWins(records[..n], ids, day, sid, i);
    }
  }

  /** A row of the report: the student's id and name, and the day's status. */
  datatype Row = Row(studentId: Id, name: string, status: string)

  /** `attendanceMap.get(id) || 'Absent'`. */
  function StatusOrAbsent(m: map<Id, string>, sid: Id): (s: string)
    ensures sid !in m ==> s == "Absent"
    ensures sid in m && m[sid] != "" ==> s == m[sid]
  {
    if sid in m && m[sid] != "" then m[sid] else "Absent"
  }

  /** A record the report's query returns whose student no longer exists (its populate yields null). */
  predicate DanglingRecord(students: map<Id, Student>, records: seq<AttendanceRecord>, ids: seq<Id>, day: int) {
    exists i :: 0 <= i < |records| && records[i].studentId in ids && InDay(records[i].date, day) &&
      records[i].studentId !in students
  }

  /**
   * getAttendanceByDate: a date and an array of ids are required; a malformed id fails to
   * cast; a record of a deleted student fails when its id is read. Otherwise one row per
   * looked-up student that exists, keyed by id.
   */
  function GetAttendanceByDate(students: map<Id, Student>, records: seq<AttendanceRecord>,
                               date: Option<int>, studentIds: Option<seq<Id>>)
    : (r: Reply<Reason, map<Id, Row>>)
    ensures date.None? || studentIds.None? ==> r == Refused(400, DateAndIdsRequired)
    ensures date.Some? && studentIds.Some? && (exists i :: 0 <= i < |studentIds.value| && !ValidId(studentIds.value[i])) ==>
              r == Refused(500, CastFailure)
    ensures r.Found? ==> date.Some? && studentIds.Some? && !DanglingRecord(students, records, studentIds.value, date.value)
    ensures date.Some? && studentIds.Some? && (forall i :: 0 <= i < |studentIds.value| ==> ValidId(studentIds.value[i])) ==>
              (r.Found? <==> !DanglingRecord(students, records, studentIds.value, date.value))
    ensures date.Some? && studentIds.Some? && (forall i :: 0 <= i < |studentIds.value| ==> ValidId(studentIds.value[i])) &&
            DanglingRecord(students, records, studentIds.value, date.value) ==>
              r == Refused(500, MissingStudentReference)
    ensures r.Found? ==> forall sid :: sid in r.value <==> sid in studentIds.value && sid in students
    ensures r.Found? ==> forall sid :: sid in r.value ==>
              r.value[sid].studentId == sid && r.value[sid].name == students[sid].name &&
              r.value[sid].status == StatusOrAbsent(StatusMap(records, studentIds.value, date.value), sid)
  {
    if date.None? || studentIds.None? then Refused(400, DateAndIdsRequired)
    else if exists i :: 0 <= i < |studentIds.value| && !ValidId(studentIds.value[i]) then Refused(500, CastFailure)
    else
      var ids := studentIds.value;
      var day := date.value;
      if DanglingRecord(students, records, ids, day) then Refused(500, MissingStudentReference)
      else
        var m := StatusMap(records, ids, day);
        Found(map sid | sid in ids && sid in students :: Row(sid, students[sid].name, StatusOrAbsent(m, sid)))
  }

  /**
   * The status the report gives a looked-up student: that of their last record of the
   * day, or Absent when they have none.
   */
  lemma {:induction false} ReportStatus(students: map<Id, Student>, records: seq<AttendanceRecord>,
                                        day: int, studentIds: seq<Id>, sid: Id)
    requires GetAttendanceByDate(students, records, Some(day), Some(studentIds)).Found?
    requires sid in studentIds && sid in students
    ensures var rows := GetAttendanceByDate(students, records, Some(day), Some(studentIds)).value;
            sid in rows &&
            ((forall i :: 0 <= i < |records| ==> !(records[i].studentId == sid && InDay(records[i].date, day))) ==>
               rows[sid].status == "Absent") &&
            (forall i :: LastOfDay(records, day, sid, i) && records[i].status != "" ==> rows[sid].status == records[i].status)
  {
    var ids := studentIds;
    StatusMapDomain(records, ids, day, sid);
    forall i | LastOfDay(records, day, sid, i) && records[i].status != ""
      ensures GetAttendanceByDate(students, records, Some(day), Some(studentIds)).value[sid].status == records[i].status
    {
      StatusMapLastWins(records, ids, day, sid, i);
    }
  }

  /** What markAttendance received: no file, a file gone from disk, or a stored image. */
  datatype Upload = NoFile | FileVanished | Stored

  /** The face service's answer: whether a face matched, and the matched reference image. */
  datatype FaceMatch = FaceMatch(verified: bool, studentImage: string)

  predicate HasImage(students: map<Id, Student>, imagePath: string) {
    exists s :: s in students && students[s].imagePath == imagePath
  }

  /** The student already has a record inside the day's window. */
  predicate MarkedOn(attendance: seq<AttendanceRecord>, sid: Id, day: int) {
    exists i :: 0 <= i < |attendance| && attendance[i].studentId == sid && InDay(attendance[i].date, day)
  }

  /** No student has two records on the same day. */
  predicate OnePerDay(attendance: seq<AttendanceRecord>) {
    forall i, j :: 0 <= i < j < |attendance| && attendance[i].studentId == attendance[j].studentId ==>
      DayOf(attendance[i].date) != DayOf(attendance[j].date)
  }

  /**
   * The window markAttendance queries as written: from 00:00:00.000 up to but excluding
   * 23:59:59.999, so the day's last millisecond falls outside it.
   */
  function InMarkWindowAsWritten(t: int, day: int): (b: bool)
    ensures b <==> InDay(t, day) && t != DayStart(day) + DayMs - 1
  {
    DayStart(day) <= t < DayStart(day) + DayMs - 1
  }

  /**
   * With the window as written, a record stamped at the day's last millisecond is not
   * seen, and a second request in that millisecond stores a second record for the day.
   */
  lemma AsWrittenWindowAdmitsSecondRecord(sid: Id, day: int)
    ensures var t := DayStart(day) + DayMs - 1;
            var first := AttendanceRecord(sid, t, "Present");
            DayOf(t) == day && InDay(t, day) && !InMarkWindowAsWritten(first.date, DayOf(t)) &&
            OnePerDay([first]) && !OnePerDay([first, first])
  {
    var t := DayStart(day) + DayMs - 1;
    var twice := [AttendanceRecord(sid, t, "Present"), AttendanceRecord(sid, t, "Present")];
    InDayIffDayOf(t, day);
    assert twice[0].studentId == twice[1].studentId && DayOf(twice[0].date) == DayOf(twice[1].date);
  }

  /**
   * markAttendance, with the face service's answer as an input: the image is required, a
   * failing service is a 500, an unrecognised face and an unknown reference image are 404;
   * the matched student is marked Present at `now` unless already marked that day.
   */
  method MarkAttendance(db: Db, upload: Upload, face: Option<FaceMatch>, now: int) returns (r: Response<Reason>)
    modifies db`attendance
    ensures upload == NoFile ==> r == Response(400, ImageRequired) && db.attendance == old(db.attendance)
    ensures upload == FileVanished ==> r == Response(400, FileNotFound) && db.attendance == old(db.attendance)
    ensures upload == Stored && face.None? ==> r == Response(500, FaceServiceFailure) && db.attendance == old(db.attendance)
    ensures upload == Stored && face.Some? && !face.value.verified ==>
              r == Response(404, FaceNotRecognized) && db.attendance == old(db.attendance)
    ensures upload == Stored && face.Some? && face.value.verified &&
            !HasImage(db.students, UploadsPrefix + face.value.studentImage) ==>
              r == Response(404, MatchedStudentNotFound) && db.attendance == old(db.attendance)
    ensures upload == Stored && face.Some? && face.value.verified &&
            HasImage(db.students, UploadsPrefix + face.value.studentImage) ==>
              exists s :: s in db.students && db.students[s].imagePath == UploadsPrefix + face.value.studentImage &&
                if MarkedOn(old(db.attendance), s, DayOf(now)) then
                  r == Response(400, AlreadyMarked) && db.attendance == old(db.attendance)
                else
                  r == Response(200, AttendanceMarked) &&
                  db.attendance == old(db.attendance) + [AttendanceRecord(s, now, "Present")]
    ensures old(OnePerDay(db.attendance)) ==> OnePerDay(db.attendance)
  {
    if upload == NoFile {
      return Response(400, ImageRequired);
    }
    if upload == FileVanished {
      return Response(400, FileNotFound);
    }
    if face.None? {
      return Response(500, FaceServiceFailure);
    }
    if !face.value.verified {
      return Response(404, FaceNotRecognized);
    }
    var path := UploadsPrefix + face.value.studentImage;
    if !HasImage(db.students, path) {
      return Response(404, MatchedStudentNotFound);
    }
    var s :| s in db.students && db.students[s].imagePath == path;
    var today := DayOf(now);
    if MarkedOn(db.attendance, s, today) {
      return Response(400, AlreadyMarked);
    }
    forall i | 0 <= i < |db.attendance| && db.attendance[i].studentId == s
      ensures DayOf(db.attendance[i].date) != DayOf(now)
    {
      InDayIffDayOf(db.attendance[i].date, today);
    }
    db.attendance := db.attendance + [AttendanceRecord(s, now, "Present")];
    r := Response(200, AttendanceMarked);
  }
}

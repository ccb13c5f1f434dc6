// The attendance endpoints of a session: listing, reading one dancer's row, recording
// (insert or overwrite, keyed by session and dancer) and deleting.

module AttendanceController {
  import opened Common
  import opened Seqs
  import opened CourseModel
  import opened EnrollmentDtos
  import opened CourseDtos
  import opened CourseData
  import opened EnrollmentRepository

  /** `GetAttendances` */
  function GetAttendances(s: CourseState, sessionId: Guid): (r: ActionResult<seq<AttendanceDto>>)
    ensures r.NotFound? <==> FindSession(s, sessionId).None?
    ensures r.NotFound? ==> r.reason == SessionNotFound
    ensures r.NotFound? || r.Ok?
    ensures r.Ok? ==> forall i :: 0 <= i < |r.value| ==>
      r.value[i].sessionId == sessionId &&
      exists a :: a in s.attendances && MapToAttendanceDto(a) == r.value[i]
    ensures r.Ok? ==> |r.value| == Count(s.attendances, OfSession(sessionId))
    ensures r.Ok? ==> r.value == MapAttendances(GetAttendancesForSession(s, sessionId))
    ensures r.Ok? ==> forall i, j :: 0 <= i < j < |r.value| ==> StrLe(r.value[i].dancerName, r.value[j].dancerName)
  {
    match FindSession(s, sessionId)
    case None => NotFound(SessionNotFound)
    case Some(_) =>
      var rows := GetAttendancesForSession(s, sessionId);
      var ds := MapAttendances(rows);
      NamesInOrder(rows);
      SessionListed(s, sessionId);
      assert forall i :: 0 <= i < |ds| ==> MapToAttendanceDto(rows[i]) == ds[i];
      Ok(ds)
  }

  /** `GetAttendance` */
  function GetAttendance(s: CourseState, sessionId: Guid, dancerId: Guid): (r: ActionResult<AttendanceDto>)
    ensures r == NotFound(SessionNotFound) <==> FindSession(s, sessionId).None?
    ensures r == NotFound(AttendanceNotFound) <==>
      FindSession(s, sessionId).Some? && EnrollmentRepository.GetAttendance(s, sessionId, dancerId).None?
    ensures r.NotFound? || r.Ok?
    ensures r.Ok? ==> (r.value.sessionId == sessionId && r.value.dancerId == dancerId &&
      exists a :: a in s.attendances && MapToAttendanceDto(a) == r.value)
  {
    match FindSession(s, sessionId)
    case None => NotFound(SessionNotFound)
    case Some(_) =>
      match EnrollmentRepository.GetAttendance(s, sessionId, dancerId)
      case None => NotFound(AttendanceNotFound)
      case Some(a) => Ok(MapToAttendanceDto(a))
  }

  // ---- RecordAttendance ----

  /** The row `RecordAttendance` creates, with the dancer's name copied from the enrollment. */
  function NewAttendance(id: Guid, sessionId: Guid, dancerId: Guid, enrollment: CourseEnrollment,
                         d: UpdateAttendanceDto, now: DateTime, user: Option<string>): SessionAttendance {
    SessionAttendance(id, sessionId, dancerId, enrollment.dancerName, d.status, Some(now), d.notes, NewAudit(now, user))
  }

  /** The existing row overwritten: status and time always, notes only when given. */
  function Rerecorded(a: SessionAttendance, d: UpdateAttendanceDto, now: DateTime, user: Option<string>): SessionAttendance {
    a.(status := d.status, recordedAt := Some(now),
       notes := if d.notes.Some? then d.notes else a.notes,
       audit := Touch(a.audit, now, user))
  }

  /** The enrollment the new row takes the dancer's name from. */
  function EnrollmentOf(s: CourseState, courseId: Guid, dancerId: Guid): Option<CourseEnrollment> {
    FirstOrNone(GetEnrollmentsForCourse(s, courseId), OfDancer(dancerId))
  }

  /** An enrolled dancer's row is found by the first-match lookup over the course's enrollments. */
  lemma EnrolledHasRecord(s: CourseState, courseId: Guid, dancerId: Guid)
    requires IsEnrolled(s, courseId, dancerId)
    ensures EnrollmentOf(s, courseId, dancerId).Some?
    ensures EnrollmentOf(s, courseId, dancerId).value in s.enrollments
    ensures EnrollmentPair(EnrollmentOf(s, courseId, dancerId).value) == (courseId, dancerId)
  {
    var k :| 0 <= k < |s.enrollments| && EnrollmentPair(s.enrollments[k]) == (courseId, dancerId);
    assert s.enrollments[k] in GetEnrollmentsForCourse(s, courseId);
  }

  /** `RecordAttendance`; `newId` is the id a new row receives. */
  function RecordAttendanceStep(s: CourseState, sessionId: Guid, dancerId: Guid, d: UpdateAttendanceDto,
                                newId: Guid, now: DateTime, user: Option<string>)
    : (r: Step<CourseState, AttendanceDto>)
    ensures FindSession(s, sessionId).None? ==> r == Step(s, NotFound(SessionNotFound))
    ensures FindSession(s, sessionId).Some? && FindCourse(s, FindSession(s, sessionId).value.courseId).None? ==>
      r == Step(s, NotFound(CourseNotFound))
    ensures FindSession(s, sessionId).Some? && FindCourse(s, FindSession(s, sessionId).value.courseId).Some? &&
            !IsEnrolled(s, FindSession(s, sessionId).value.courseId, dancerId) ==>
      r == Step(s, BadRequest(NotEnrolled))
    ensures r.result.IsSuccess() <==>
      FindSession(s, sessionId).Some? && FindCourse(s, FindSession(s, sessionId).value.courseId).Some? &&
      IsEnrolled(s, FindSession(s, sessionId).value.courseId, dancerId)
    ensures r.result.IsSuccess() ==> r.result.Ok?
    ensures !r.result.IsSuccess() ==> r.state == s
  {
    match FindSession(s, sessionId)
    case None => Step(s, NotFound(SessionNotFound))
    case Some(session) =>
      match FindCourse(s, session.courseId)
      case None => Step(s, NotFound(CourseNotFound))
      case Some(course) =>
        if !IsEnrolled(s, course.id, dancerId) then Step(s, BadRequest(NotEnrolled))
        else
          match EnrollmentRepository.GetAttendance(s, sessionId, dancerId)
          case Some(a) =>
            var updated := Rerecorded(a, d, now, user);
            Step(AttendanceUpdated(s, updated), Ok(MapToAttendanceDto(updated)))
          case None =>
            EnrolledHasRecord(s, course.id, dancerId);
            match EnrollmentOf(s, course.id, dancerId)
            case None => Step(s, BadRequest(EnrollmentRecordMissing))
            case Some(e) =>
              var created := NewAttendance(newId, sessionId, dancerId, e, d, now, user);
              Step(AttendanceAdded(s, created), Ok(MapToAttendanceDto(created)))
  }

  /** After a recording, the store is valid and holds the session and dancer's row, with the requested status and the current time. */
  lemma RecordAttendanceUpserts(s: CourseState, sessionId: Guid, dancerId: Guid, d: UpdateAttendanceDto,
                                newId: Guid, now: DateTime, user: Option<string>)
    requires Valid(s) && AttendanceIndex(s, newId).None?
    requires RecordAttendanceStep(s, sessionId, dancerId, d, newId, now, user).result.IsSuccess()
    ensures var t := RecordAttendanceStep(s, sessionId, dancerId, d, newId, now, user).state;
      var old_ := EnrollmentRepository.GetAttendance(s, sessionId, dancerId);
      var row := EnrollmentRepository.GetAttendance(t, sessionId, dancerId);
      Valid(t) && row.Some? &&
      RecordAttendanceStep(s, sessionId, dancerId, d, newId, now, user).result == Ok(MapToAttendanceDto(row.value)) &&
      row.value.status == d.status && row.value.recordedAt == Some(now) &&
      t.courses == s.courses && t.sessions == s.sessions && t.enrollments == s.enrollments &&
      (old_.Some? ==>
        row.value.id == old_.value.id && |t.attendances| == |s.attendances| &&
        row.value.notes == (if d.notes.Some? then d.notes else old_.value.notes)) &&
      (old_.None? ==>
        row.value.id == newId && |t.attendances| == |s.attendances| + 1 && row.value.notes == d.notes)
  {
    var session := FindSession(s, sessionId).value;
    var course := FindCourse(s, session.courseId).value;
    match EnrollmentRepository.GetAttendance(s, sessionId, dancerId)
    case Some(a) =>
      RerecordedStored(s, a, d, now, user);
    case None =>
      EnrolledHasRecord(s, course.id, dancerId);
      var e := EnrollmentOf(s, course.id, dancerId).value;
      NewAttendanceStored(s, NewAttendance(newId, sessionId, dancerId, e, d, now, user));
  }

  /** Overwriting a stored row keeps the store valid and leaves the overwritten row as the pair's row. */
  lemma RerecordedStored(s: CourseState, a: SessionAttendance, d: UpdateAttendanceDto, now: DateTime, user: Option<string>)
    requires Valid(s) && a in s.attendances
    ensures AttendanceIndex(s, a.id).Some?
    ensures var t := AttendanceUpdated(s, Rerecorded(a, d, now, user));
      Valid(t) && |t.attendances| == |s.attendances| &&
      EnrollmentRepository.GetAttendance(t, a.sessionId, a.dancerId) == Some(Rerecorded(a, d, now, user))
  {
    var j :| 0 <= j < |s.attendances| && s.attendances[j] == a;
    IndexOfUniqueKey(s.attendances, AttendanceKey, j);
    var updated := Rerecorded(a, d, now, user);
    AttendanceUpdatedValid(s, updated);
    var t := AttendanceUpdated(s, updated);
    assert t.attendances[j] == updated;
    GetAttendanceAt(t, j);
  }

  /** Appending a row for a pair without one keeps the store valid and makes it the pair's row. */
  lemma NewAttendanceStored(s: CourseState, x: SessionAttendance)
    requires Valid(s) && AttendanceIndex(s, x.id).None?
    requires EnrollmentRepository.GetAttendance(s, x.sessionId, x.dancerId).None?
    requires SessionIndex(s, x.sessionId).Some?
    ensures var t := AttendanceAdded(s, x);
      Valid(t) && |t.attendances| == |s.attendances| + 1 &&
      EnrollmentRepository.GetAttendance(t, x.sessionId, x.dancerId) == Some(x)
  {
    AttendanceAddedValid(s, x);
    var t := AttendanceAdded(s, x);
    assert t.attendances[|s.attendances|] == x;
    GetAttendanceAt(t, |s.attendances|);
  }

  /** A new row copies the name of the dancer's enrollment in the session's course; "Enrollment record not found" never happens once the dancer is enrolled. */
  lemma RecordAttendanceCopiesName(s: CourseState, sessionId: Guid, dancerId: Guid, d: UpdateAttendanceDto,
                                   newId: Guid, now: DateTime, user: Option<string>)
    requires Valid(s) && AttendanceIndex(s, newId).None?
    requires RecordAttendanceStep(s, sessionId, dancerId, d, newId, now, user).result.IsSuccess()
    requires EnrollmentRepository.GetAttendance(s, sessionId, dancerId).None?
    ensures var r := RecordAttendanceStep(s, sessionId, dancerId, d, newId, now, user).result;
      exists e :: e in s.enrollments && e.courseId == FindSession(s, sessionId).value.courseId &&
        e.dancerId == dancerId && r.value.dancerName == e.dancerName
  {
    var course := FindCourse(s, FindSession(s, sessionId).value.courseId).value;
    EnrolledHasRecord(s, course.id, dancerId);
  }

  /** Recording the same thing twice at the same instant answers the same and adds no second row. */
  lemma RecordAttendanceIdempotent(s: CourseState, sessionId: Guid, dancerId: Guid, d: UpdateAttendanceDto,
                                   newId: Guid, newId2: Guid, now: DateTime, user: Option<string>)
    requires Valid(s) && AttendanceIndex(s, newId).None?
    requires RecordAttendanceStep(s, sessionId, dancerId, d, newId, now, user).result.IsSuccess()
    ensures var first := RecordAttendanceStep(s, sessionId, dancerId, d, newId, now, user);
      var second := RecordAttendanceStep(first.state, sessionId, dancerId, d, newId2, now, user);
      second.result == first.result && |second.state.attendances| == |first.state.attendances| &&
      Valid(second.state)
  {
    RecordAttendanceUpserts(s, sessionId, dancerId, d, newId, now, user);
    var t := RecordAttendanceStep(s, sessionId, dancerId, d, newId, now, user).state;
    var row := EnrollmentRepository.GetAttendance(t, sessionId, dancerId).value;
    var j :| 0 <= j < |t.attendances| && t.attendances[j] == row;
    IndexOfUniqueKey(t.attendances, AttendanceKey, j);
    AttendanceUpdatedValid(t, Rerecorded(row, d, now, user));
  }

  // ---- DeleteAttendance ----

  /** `DeleteAttendance` */
  function DeleteAttendanceStep(s: CourseState, sessionId: Guid, dancerId: Guid): (r: Step<CourseState, bool>)
    ensures FindSession(s, sessionId).None? ==> r == Step(s, NotFound(SessionNotFound))
    ensures FindSession(s, sessionId).Some? && EnrollmentRepository.GetAttendance(s, sessionId, dancerId).None? ==>
      r == Step(s, NotFound(AttendanceNotFound))
    ensures r.result.IsSuccess() <==>
      FindSession(s, sessionId).Some? && EnrollmentRepository.GetAttendance(s, sessionId, dancerId).Some?
    ensures r.result.IsSuccess() ==> r.result == Ok(true)
  {
    match FindSession(s, sessionId)
    case None => Step(s, NotFound(SessionNotFound))
    case Some(_) =>
      match EnrollmentRepository.GetAttendance(s, sessionId, dancerId)
      case None => Step(s, NotFound(AttendanceNotFound))
      case Some(a) =>
        var i :| 0 <= i < |s.attendances| && s.attendances[i] == a;
        assert AttendanceIndex(s, a.id).Some?;
        Step(AttendanceDeleted(s, a), Ok(true))
  }

  /** A deletion keeps the store valid, leaves the dancer without a row in the session, and keeps every other row. */
  lemma DeleteAttendanceRemovesPair(s: CourseState, sessionId: Guid, dancerId: Guid)
    requires Valid(s)
    requires DeleteAttendanceStep(s, sessionId, dancerId).result.IsSuccess()
    ensures var t := DeleteAttendanceStep(s, sessionId, dancerId).state;
      Valid(t) && EnrollmentRepository.GetAttendance(t, sessionId, dancerId).None? &&
      |t.attendances| == |s.attendances| - 1 &&
      (forall x :: x in s.attendances && AttendancePair(x) != (sessionId, dancerId) ==> x in t.attendances)
  {
    var a := EnrollmentRepository.GetAttendance(s, sessionId, dancerId).value;
    var i :| 0 <= i < |s.attendances| && s.attendances[i] == a;
    IndexOfUniqueKey(s.attendances, AttendanceKey, i);
    AttendanceDeletedValid(s, a);
    AttendanceDeletedRemovesOnly(s, a);
    DeletedPairGone(s, i);
  }

  /** Under unique pairs, removing the row at `i` leaves its pair without a row. */
  lemma DeletedPairGone(s: CourseState, i: nat)
    requires UniqueBy(s.attendances, AttendancePair) && i < |s.attendances|
    ensures forall j :: 0 <= j < |RemoveAt(s.attendances, i)| ==>
      AttendancePair(RemoveAt(s.attendances, i)[j]) != AttendancePair(s.attendances[i])
  {
    var r := RemoveAt(s.attendances, i);
    forall j | 0 <= j < |r| ensures AttendancePair(r[j]) != AttendancePair(s.attendances[i]) {
      var j' := if j < i then j else j + 1;
      assert r[j] == s.attendances[j'];
    }
  }

  // ---- the actions on the context ----

  /** `RecordAttendance` */
  method RecordAttendance(db: CourseDb, sessionId: Guid, dancerId: Guid, d: UpdateAttendanceDto,
                          newId: Guid, now: DateTime, user: Option<string>)
    returns (result: ActionResult<AttendanceDto>)
    modifies db
    ensures Step(db.State(), result) == RecordAttendanceStep(old(db.State()), sessionId, dancerId, d, newId, now, user)
  {
    var session := FindSession(db.State(), sessionId);
    if session.None? {
      return NotFound(SessionNotFound);
    }
    var course := FindCourse(db.State(), session.value.courseId);
    if course.None? {
      return NotFound(CourseNotFound);
    }
    if !IsEnrolled(db.State(), course.value.id, dancerId) {
      return BadRequest(NotEnrolled);
    }
    var attendance := EnrollmentRepository.GetAttendance(db.State(), sessionId, dancerId);
    var a: SessionAttendance;
    if attendance.None? {
      var enrollment := EnrollmentOf(db.State(), course.value.id, dancerId);
      if enrollment.None? {
        return BadRequest(EnrollmentRecordMissing);
      }
      a := NewAttendance(newId, sessionId, dancerId, enrollment.value, d, now, user);
      AddAttendance(db, a);
    } else {
      a := attendance.value;
      a := a.(status := d.status, recordedAt := Some(now));
      if d.notes.Some? {
        a := a.(notes := d.notes);
      }
      a := a.(audit := Touch(a.audit, now, user));
      var i :| 0 <= i < |db.attendances| && db.attendances[i] == attendance.value;
      assert AttendanceIndex(db.State(), a.id).Some?;
      UpdateAttendance(db, a);
    }
    return Ok(MapToAttendanceDto(a));
  }

  /** `DeleteAttendance` */
  method DeleteAttendance(db: CourseDb, sessionId: Guid, dancerId: Guid) returns (result: ActionResult<bool>)
    modifies db
    ensures Step(db.State(), result) == DeleteAttendanceStep(old(db.State()), sessionId, dancerId)
  {
    var session := FindSession(db.State(), sessionId);
    if session.None? {
      return NotFound(SessionNotFound);
    }
    var attendance := EnrollmentRepository.GetAttendance(db.State(), sessionId, dancerId);
    if attendance.None? {
      return NotFound(AttendanceNotFound);
    }
    var i :| 0 <= i < |db.attendances| && db.attendances[i] == attendance.value;
    assert AttendanceIndex(db.State(), attendance.value.id).Some?;
    EnrollmentRepository.DeleteAttendance(db, attendance.value);
    return Ok(true);
  }
}

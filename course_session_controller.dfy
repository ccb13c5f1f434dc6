// The session endpoints of a course: listing and reading sessions, adding one inside the
// course's dates, the three-branch time check of an update, the cancellation rule, and deletion.

module CourseSessionController {
  import opened Common
  import opened Seqs
  import opened CourseModel
  import opened CourseDtos
  import opened CourseData
  import opened EnrollmentRepository
  import opened CourseRepository

  /** `SessionDto`; `attendances` is set only when the request asks for them. */
  datatype SessionDto = SessionDto(
    row: CourseSession,
    durationMinutes: int,
    hasStarted: bool,
    hasEnded: bool,
    attendances: Option<seq<AttendanceDto>>)

  /** `MapToSessionDto`, with `now` standing for the clock the derived flags read. */
  function MapToSessionDto(x: CourseSession, now: DateTime): SessionDto {
    SessionDto(x, x.DurationMinutes(), x.HasStarted(now), x.HasEnded(now), None)
  }

  /** The session with that id, when it belongs to that course. */
  function SessionInCourse(s: CourseState, courseId: Guid, sessionId: Guid): (r: Option<CourseSession>)
    ensures r.Some? ==> r.value in s.sessions && r.value.id == sessionId && r.value.courseId == courseId
    ensures r.None? <==> FindSession(s, sessionId).None? || FindSession(s, sessionId).value.courseId != courseId
  {
    match FindSession(s, sessionId)
    case None => None
    case Some(x) => if x.courseId != courseId then None else Some(x)
  }

  /** The rows behind a list of session DTOs. */
  function SessionRows(ds: seq<SessionDto>): seq<CourseSession> {
    seq(|ds|, i requires 0 <= i < |ds| => ds[i].row)
  }

  /** The DTOs of a list of sessions, in the same order: their rows are the sessions again. */
  function MapSessions(xs: seq<CourseSession>, now: DateTime): (r: seq<SessionDto>)
    ensures |r| == |xs| && forall i :: 0 <= i < |r| ==> r[i] == MapToSessionDto(xs[i], now)
    ensures SessionRows(r) == xs
  {
    var r := seq(|xs|, i requires 0 <= i < |xs| => MapToSessionDto(xs[i], now));
    assert forall i :: 0 <= i < |xs| ==> SessionRows(r)[i] == xs[i];
    r
  }

  /** `GetSessions`: the course's sessions, earliest first, or NotFound. */
  function GetSessions(s: CourseState, courseId: Guid, now: DateTime): (r: ActionResult<seq<SessionDto>>)
    ensures r.NotFound? <==> FindCourse(s, courseId).None?
    ensures r.NotFound? ==> r.reason == CourseNotFound
    ensures r.NotFound? || r.Ok?
    ensures r.Ok? ==> SessionRows(r.value) == GetSessionsForCourse(s, courseId)
    ensures r.Ok? ==> forall x :: x in SessionRows(r.value) <==> x in s.sessions && x.courseId == courseId
  {
    match FindCourse(s, courseId)
    case None => NotFound(CourseNotFound)
    case Some(_) => Ok(MapSessions(GetSessionsForCourse(s, courseId), now))
  }

  /** `GetSession`; `includeAttendances` is whether the query string asks for the attendance list. */
  function GetSession(s: CourseState, courseId: Guid, sessionId: Guid, includeAttendances: bool, now: DateTime): (r: ActionResult<SessionDto>)
    ensures FindCourse(s, courseId).None? <==> r == NotFound(CourseNotFound)
    ensures r == NotFound(SessionNotFound) <==> FindCourse(s, courseId).Some? && SessionInCourse(s, courseId, sessionId).None?
    ensures r.NotFound? || r.Ok?
    ensures r.Ok? ==> r.value.row.id == sessionId && r.value.row.courseId == courseId && r.value.row in s.sessions
    ensures r.Ok? ==> (r.value.attendances.Some? <==> includeAttendances)
    ensures r.Ok? && includeAttendances ==>
      r.value.attendances == Some(MapAttendances(GetAttendancesForSession(s, sessionId)))
    ensures r.Ok? && includeAttendances ==>
      |r.value.attendances.value| == Count(s.attendances, OfSession(sessionId))
    ensures r.Ok? && includeAttendances ==> forall i, j :: 0 <= i < j < |r.value.attendances.value| ==>
      StrLe(r.value.attendances.value[i].dancerName, r.value.attendances.value[j].dancerName)
    ensures r.Ok? && includeAttendances ==> forall i :: 0 <= i < |r.value.attendances.value| ==>
      r.value.attendances.value[i].sessionId == sessionId &&
      exists a :: a in s.attendances && MapToAttendanceDto(a) == r.value.attendances.value[i]
  {
    match FindCourse(s, courseId)
    case None => NotFound(CourseNotFound)
    case Some(_) =>
      match SessionInCourse(s, courseId, sessionId)
      case None => NotFound(SessionNotFound)
      case Some(x) =>
        var dto := MapToSessionDto(x, now);
        var rows := GetAttendancesForSession(s, sessionId);
        var ds := MapAttendances(rows);
        NamesInOrder(rows);
        SessionListed(s, sessionId);
        assert forall i :: 0 <= i < |ds| ==> MapToAttendanceDto(rows[i]) == ds[i];
        Ok(if includeAttendances then dto.(attendances := Some(ds)) else dto)
  }

  // ---- AddSession ----

  /** The row `AddSession` builds: the course's location when the request gives none, not canceled. */
  function NewSession(id: Guid, course: Course, d: CreateSessionDto, now: DateTime, user: Option<string>): CourseSession {
    CourseSession(id, course.id, d.startDateTime, d.endDateTime, d.location.OrElse(course.location),
                  d.notes, false, None, NewAudit(now, user))
  }

  /** Whether a span lies inside the course's dates, both ends included. */
  predicate WithinCourse(start: DateTime, end: DateTime, course: Course) {
    course.startDate <= start && end <= course.endDate
  }

  /** `AddSession` */
  function AddSessionStep(s: CourseState, courseId: Guid, d: CreateSessionDto, newId: Guid, now: DateTime, user: Option<string>)
    : (r: Step<CourseState, SessionDto>)
    ensures FindCourse(s, courseId).None? ==> r == Step(s, NotFound(CourseNotFound))
    ensures FindCourse(s, courseId).Some? && d.endDateTime <= d.startDateTime ==> r == Step(s, BadRequest(EndNotAfterStart))
    ensures FindCourse(s, courseId).Some? && d.startDateTime < d.endDateTime &&
            !WithinCourse(d.startDateTime, d.endDateTime, FindCourse(s, courseId).value) ==>
              r == Step(s, BadRequest(OutsideCourseDates))
    ensures r.result.IsSuccess() <==>
      FindCourse(s, courseId).Some? && d.startDateTime < d.endDateTime &&
      WithinCourse(d.startDateTime, d.endDateTime, FindCourse(s, courseId).value)
    ensures r.result.IsSuccess() ==>
      var x := NewSession(newId, FindCourse(s, courseId).value, d, now, user);
      r.state == SessionAdded(s, x) && r.result == Created(MapToSessionDto(x, now))
  {
    match FindCourse(s, courseId)
    case None => Step(s, NotFound(CourseNotFound))
    case Some(course) =>
      if d.endDateTime <= d.startDateTime then Step(s, BadRequest(EndNotAfterStart))
      else if d.startDateTime < course.startDate || d.endDateTime > course.endDate then Step(s, BadRequest(OutsideCourseDates))
      else
        var x := NewSession(newId, course, d, now, user);
        Step(SessionAdded(s, x), Created(MapToSessionDto(x, now)))
  }

  /** Every session `AddSession` stores lies inside its course, ends after it starts, and is open. */
  lemma AddSessionStoresWithin(s: CourseState, courseId: Guid, d: CreateSessionDto, newId: Guid, now: DateTime, user: Option<string>)
    requires Valid(s) && SessionIndex(s, newId).None?
    requires AddSessionStep(s, courseId, d, newId, now, user).result.IsSuccess()
    ensures var t := AddSessionStep(s, courseId, d, newId, now, user).state;
      var course := FindCourse(s, courseId).value;
      Valid(t) && FindSession(t, newId).Some? &&
      var x := FindSession(t, newId).value;
      x.courseId == courseId && x.startDateTime < x.endDateTime &&
      WithinCourse(x.startDateTime, x.endDateTime, course) &&
      x.location == (if d.location.Some? then d.location else course.location) &&
      !x.isCanceled && x.cancellationReason.None? && x.DurationMinutes() >= 0
  {
    var course := FindCourse(s, courseId).value;
    var x := NewSession(newId, course, d, now, user);
    SessionAddedValid(s, x);
    DurationBounds(x);
  }

  /** A failed `AddSession` changes nothing. */
  lemma AddSessionRefusalKeepsStore(s: CourseState, courseId: Guid, d: CreateSessionDto, newId: Guid, now: DateTime, user: Option<string>)
    requires !AddSessionStep(s, courseId, d, newId, now, user).result.IsSuccess()
    ensures AddSessionStep(s, courseId, d, newId, now, user).state == s
  {
  }

  // ---- UpdateSession ----

  /** The time checks of `UpdateSession`, one branch per combination of supplied times; `None` lets the update through. */
  function SessionUpdateRefusal(x: CourseSession, course: Course, d: UpdateSessionDto): Option<Reason> {
    if d.startDateTime.Some? && d.endDateTime.Some? then
      if d.endDateTime.value <= d.startDateTime.value then Some(EndNotAfterStart)
      else if d.startDateTime.value < course.startDate || d.endDateTime.value > course.endDate then Some(OutsideCourseDates)
      else None
    else if d.startDateTime.Some? then
      if x.endDateTime <= d.startDateTime.value then Some(EndNotAfterStart)
      else if d.startDateTime.value < course.startDate then Some(StartBeforeCourseStart)
      else None
    else if d.endDateTime.Some? then
      if d.endDateTime.value <= x.startDateTime then Some(EndNotAfterStart)
      else if d.endDateTime.value > course.endDate then Some(EndAfterCourseEnd)
      else None
    else None
  }

  /** The session's start and end once the update's times are applied. */
  function NewStart(x: CourseSession, d: UpdateSessionDto): DateTime {
    if d.startDateTime.Some? then d.startDateTime.value else x.startDateTime
  }

  function NewEnd(x: CourseSession, d: UpdateSessionDto): DateTime {
    if d.endDateTime.Some? then d.endDateTime.value else x.endDateTime
  }

  /** An update that supplies a time passes exactly when the resulting span is in order and each supplied end stays inside the course. */
  lemma SessionUpdateRefusalIff(x: CourseSession, course: Course, d: UpdateSessionDto)
    ensures SessionUpdateRefusal(x, course, d).None? <==>
      (d.startDateTime.None? && d.endDateTime.None?) ||
      (NewStart(x, d) < NewEnd(x, d) &&
       (d.startDateTime.Some? ==> course.startDate <= NewStart(x, d)) &&
       (d.endDateTime.Some? ==> NewEnd(x, d) <= course.endDate))
  {
  }

  /** The partial update of `UpdateSession`, with the cancellation rule. */
  function ApplySessionUpdate(x: CourseSession, d: UpdateSessionDto, now: DateTime, user: Option<string>): (r: CourseSession)
    ensures r.id == x.id && r.courseId == x.courseId
    ensures r.startDateTime == NewStart(x, d) && r.endDateTime == NewEnd(x, d)
    ensures r.location == (if d.location.Some? then d.location else x.location)
    ensures r.notes == (if d.notes.Some? then d.notes else x.notes)
    ensures r.audit == Touch(x.audit, now, user)
  {
    var canceled := if d.isCanceled.Some? then d.isCanceled.value else x.isCanceled;
    var reason :=
      if d.isCanceled == Some(true) && d.cancellationReason.Some? then d.cancellationReason
      else if d.isCanceled == Some(false) then None
      else x.cancellationReason;
    x.(startDateTime := NewStart(x, d), endDateTime := NewEnd(x, d),
       location := if d.location.Some? then d.location else x.location,
       notes := if d.notes.Some? then d.notes else x.notes,
       isCanceled := canceled, cancellationReason := reason,
       audit := Touch(x.audit, now, user))
  }

  /** The cancellation rule: canceling with a reason stores it, without one keeps the old one; reopening clears it; no flag touches neither. */
  lemma CancellationRule(x: CourseSession, d: UpdateSessionDto, now: DateTime, user: Option<string>)
    ensures var r := ApplySessionUpdate(x, d, now, user);
      (d.isCanceled == Some(true) && d.cancellationReason.Some? ==> r.isCanceled && r.cancellationReason == d.cancellationReason) &&
      (d.isCanceled == Some(true) && d.cancellationReason.None? ==> r.isCanceled && r.cancellationReason == x.cancellationReason) &&
      (d.isCanceled == Some(false) ==> !r.isCanceled && r.cancellationReason.None?) &&
      (d.isCanceled.None? ==> r.isCanceled == x.isCanceled && r.cancellationReason == x.cancellationReason)
  {
  }

  /** An open session never carries a cancellation reason. */
  predicate ReasonOnlyWhenCanceled(x: CourseSession) {
    !x.isCanceled ==> x.cancellationReason.None?
  }

  /** New sessions satisfy the rule, and every update keeps it. */
  lemma ReasonRuleKept(x: CourseSession, d: UpdateSessionDto, now: DateTime, user: Option<string>,
                       id: Guid, course: Course, c: CreateSessionDto)
    ensures ReasonOnlyWhenCanceled(NewSession(id, course, c, now, user))
    ensures ReasonOnlyWhenCanceled(x) ==> ReasonOnlyWhenCanceled(ApplySessionUpdate(x, d, now, user))
  {
  }

  /** A session that passes the checks keeps its start before its end and, if it lay inside the course, still does. */
  lemma UpdateKeepsSpan(x: CourseSession, course: Course, d: UpdateSessionDto, now: DateTime, user: Option<string>)
    requires SessionUpdateRefusal(x, course, d).None?
    ensures var r := ApplySessionUpdate(x, d, now, user);
      (x.startDateTime < x.endDateTime ==> r.startDateTime < r.endDateTime) &&
      (WithinCourse(x.startDateTime, x.endDateTime, course) ==> WithinCourse(r.startDateTime, r.endDateTime, course)) &&
      (d.startDateTime.None? ==> r.startDateTime == x.startDateTime) &&
      (d.endDateTime.None? ==> r.endDateTime == x.endDateTime)
  {
    SessionUpdateRefusalIff(x, course, d);
  }

  /** `UpdateSession` */
  function UpdateSessionStep(s: CourseState, courseId: Guid, sessionId: Guid, d: UpdateSessionDto, now: DateTime, user: Option<string>)
    : (r: Step<CourseState, SessionDto>)
    ensures FindCourse(s, courseId).None? ==> r == Step(s, NotFound(CourseNotFound))
    ensures FindCourse(s, courseId).Some? && SessionInCourse(s, courseId, sessionId).None? ==> r == Step(s, NotFound(SessionNotFound))
    ensures FindCourse(s, courseId).Some? && SessionInCourse(s, courseId, sessionId).Some? ==>
      var x := SessionInCourse(s, courseId, sessionId).value;
      match SessionUpdateRefusal(x, FindCourse(s, courseId).value, d)
      case Some(why) => r == Step(s, BadRequest(why))
      case None =>
        r.state == SessionUpdated(s, ApplySessionUpdate(x, d, now, user)) &&
        r.result == Ok(MapToSessionDto(ApplySessionUpdate(x, d, now, user), now))
    ensures !r.result.IsSuccess() ==> r.state == s
  {
    match FindCourse(s, courseId)
    case None => Step(s, NotFound(CourseNotFound))
    case Some(course) =>
      match SessionInCourse(s, courseId, sessionId)
      case None => Step(s, NotFound(SessionNotFound))
      case Some(x) =>
        match SessionUpdateRefusal(x, course, d)
        case Some(why) => Step(s, BadRequest(why))
        case None =>
          var updated := ApplySessionUpdate(x, d, now, user);
          Step(SessionUpdated(s, updated), Ok(MapToSessionDto(updated, now)))
  }

  /** A successful update keeps the store valid, and a stored session that lay inside its course still does. */
  lemma UpdateSessionValid(s: CourseState, courseId: Guid, sessionId: Guid, d: UpdateSessionDto, now: DateTime, user: Option<string>)
    requires Valid(s)
    ensures Valid(UpdateSessionStep(s, courseId, sessionId, d, now, user).state)
    ensures UpdateSessionStep(s, courseId, sessionId, d, now, user).result.IsSuccess() ==>
      var x := SessionInCourse(s, courseId, sessionId).value;
      var t := UpdateSessionStep(s, courseId, sessionId, d, now, user).state;
      FindSession(t, sessionId).Some? && FindSession(t, sessionId).value.courseId == courseId &&
      (WithinCourse(x.startDateTime, x.endDateTime, FindCourse(s, courseId).value) ==>
        WithinCourse(FindSession(t, sessionId).value.startDateTime, FindSession(t, sessionId).value.endDateTime, FindCourse(t, courseId).value))
  {
    var r := UpdateSessionStep(s, courseId, sessionId, d, now, user);
    if r.result.IsSuccess() {
      var course := FindCourse(s, courseId).value;
      var x := SessionInCourse(s, courseId, sessionId).value;
      var updated := ApplySessionUpdate(x, d, now, user);
      assert CourseIndex(s, updated.courseId).Some?;
      SessionUpdatedValid(s, updated);
      UpdateKeepsSpan(x, course, d, now, user);
    }
  }

  // ---- DeleteSession ----

  /** `DeleteSession` */
  function DeleteSessionStep(s: CourseState, courseId: Guid, sessionId: Guid): (r: Step<CourseState, bool>)
    ensures FindCourse(s, courseId).None? ==> r == Step(s, NotFound(CourseNotFound))
    ensures FindCourse(s, courseId).Some? && SessionInCourse(s, courseId, sessionId).None? ==> r == Step(s, NotFound(SessionNotFound))
    ensures FindCourse(s, courseId).Some? && SessionInCourse(s, courseId, sessionId).Some? ==>
      r == Step(SessionDeleted(s, SessionInCourse(s, courseId, sessionId).value), Ok(true))
  {
    match FindCourse(s, courseId)
    case None => Step(s, NotFound(CourseNotFound))
    case Some(_) =>
      match SessionInCourse(s, courseId, sessionId)
      case None => Step(s, NotFound(SessionNotFound))
      case Some(x) => Step(SessionDeleted(s, x), Ok(true))
  }

  /** Only a session of that very course can be deleted through it; deleting keeps the store valid and drops its attendance. */
  lemma DeleteSessionOwnership(s: CourseState, courseId: Guid, sessionId: Guid)
    requires Valid(s)
    ensures var t := DeleteSessionStep(s, courseId, sessionId).state;
      Valid(t) &&
      (DeleteSessionStep(s, courseId, sessionId).result.IsSuccess() <==>
        FindCourse(s, courseId).Some? && FindSession(s, sessionId).Some? && FindSession(s, sessionId).value.courseId == courseId) &&
      (DeleteSessionStep(s, courseId, sessionId).result.IsSuccess() ==>
        FindSession(t, sessionId).None? && (forall a :: a in t.attendances ==> a.sessionId != sessionId)) &&
      (!DeleteSessionStep(s, courseId, sessionId).result.IsSuccess() ==> t == s)
  {
    if DeleteSessionStep(s, courseId, sessionId).result.IsSuccess() {
      SessionDeletedValid(s, SessionInCourse(s, courseId, sessionId).value);
    }
  }

  // ---- the actions on the context ----

  /** `AddSession` */
  method AddSession(db: CourseDb, courseId: Guid, d: CreateSessionDto, newId: Guid, now: DateTime, user: Option<string>)
    returns (result: ActionResult<SessionDto>)
    modifies db
    ensures Step(db.State(), result) == AddSessionStep(old(db.State()), courseId, d, newId, now, user)
  {
    var course := FindCourse(db.State(), courseId);
    if course.None? {
      return NotFound(CourseNotFound);
    }
    if d.endDateTime <= d.startDateTime {
      return BadRequest(EndNotAfterStart);
    }
    if d.startDateTime < course.value.startDate || d.endDateTime > course.value.endDate {
      return BadRequest(OutsideCourseDates);
    }
    var x := NewSession(newId, course.value, d, now, user);
    CourseRepository.AddSession(db, x);
    return Created(MapToSessionDto(x, now));
  }

  /** `UpdateSession`: the guard chain, then the supplied fields assigned one by one. */
  method UpdateSession(db: CourseDb, courseId: Guid, sessionId: Guid, d: UpdateSessionDto, now: DateTime, user: Option<string>)
    returns (result: ActionResult<SessionDto>)
    modifies db
    ensures Step(db.State(), result) == UpdateSessionStep(old(db.State()), courseId, sessionId, d, now, user)
  {
    var course := FindCourse(db.State(), courseId);
    if course.None? {
      return NotFound(CourseNotFound);
    }
    var found := SessionInCourse(db.State(), courseId, sessionId);
    if found.None? {
      return NotFound(SessionNotFound);
    }
    var x := found.value;
    var refusal := SessionUpdateRefusal(x, course.value, d);
    if refusal.Some? {
      return BadRequest(refusal.value);
    }
    if d.startDateTime.Some? {
      x := x.(startDateTime := d.startDateTime.value);
    }
    if d.endDateTime.Some? {
      x := x.(endDateTime := d.endDateTime.value);
    }
    if d.location.Some? {
      x := x.(location := d.location);
    }
    if d.notes.Some? {
      x := x.(notes := d.notes);
    }
    if d.isCanceled.Some? {
      x := x.(isCanceled := d.isCanceled.value);
      if d.isCanceled.value && d.cancellationReason.Some? {
        x := x.(cancellationReason := d.cancellationReason);
      } else if !d.isCanceled.value {
        x := x.(cancellationReason := None);
      }
    }
    x := x.(audit := Touch(x.audit, now, user));
    assert x == ApplySessionUpdate(found.value, d, now, user);
    CourseRepository.UpdateSession(db, x);
    return Ok(MapToSessionDto(x, now));
  }

  /** `DeleteSession` */
  method DeleteSession(db: CourseDb, courseId: Guid, sessionId: Guid) returns (result: ActionResult<bool>)
    modifies db
    ensures Step(db.State(), result) == DeleteSessionStep(old(db.State()), courseId, sessionId)
  {
    var course := FindCourse(db.State(), courseId);
    if course.None? {
      return NotFound(CourseNotFound);
    }
    var found := SessionInCourse(db.State(), courseId, sessionId);
    if found.None? {
      return NotFound(SessionNotFound);
    }
    CourseRepository.DeleteSession(db, found.value);
    return Ok(true);
  }
}

// The course endpoints: the paged list, one course with its sessions, creation (with inline
// sessions), the partial update with its name and date checks, and deletion.

module CourseController {
  import opened Common
  import opened Seqs
  import opened StringExtensions
  import opened BaseDto
  import opened CourseModel
  import opened Annotations
  import opened CourseDtos
  import opened CourseData
  import opened CourseRepository
  import opened CourseSessionController

  /** `CourseDto`: the row, the three derived flags, and the sessions the entity carries. */
  datatype CourseDto = CourseDto(
    row: Course,
    isFull: bool,
    hasStarted: bool,
    hasEnded: bool,
    sessions: seq<SessionDto>)

  /** `MapToCourseDto`; `now` stands for the clock the flags read. */
  function MapToCourseDto(c: Course, sessions: seq<CourseSession>, now: DateTime): CourseDto {
    CourseDto(c, c.IsFull(), c.HasStarted(now), c.HasEnded(now), MapSessions(sessions, now))
  }

  /** The rows behind a list of course DTOs. */
  function CourseRows(ds: seq<CourseDto>): seq<Course> {
    seq(|ds|, i requires 0 <= i < |ds| => ds[i].row)
  }

  /** The list items of `GetCourses`, in the query's order, each with the sessions `Include` loads for it. */
  function ListItems(s: CourseState, rows: seq<Course>, now: DateTime): (r: seq<CourseDto>)
    ensures CourseRows(r) == rows
    ensures forall i :: 0 <= i < |r| ==> SessionRows(r[i].sessions) == Filter(s.sessions, SessionOf(rows[i].id))
    ensures forall i, x :: 0 <= i < |r| && x in SessionRows(r[i].sessions) ==> x in s.sessions && x.courseId == rows[i].id
    ensures forall i, x :: 0 <= i < |r| && x in s.sessions && x.courseId == rows[i].id ==> x in SessionRows(r[i].sessions)
  {
    var r := seq(|rows|, i requires 0 <= i < |rows| => MapToCourseDto(rows[i], Filter(s.sessions, SessionOf(rows[i].id)), now));
    assert forall i :: 0 <= i < |rows| ==> CourseRows(r)[i] == rows[i];
    r
  }

  /** `GetCourses`: the query's page and total, each course with its sessions. */
  function GetCourses(s: CourseState, f: CourseFilterParams, now: DateTime): (r: PagedResponse<CourseDto>)
    ensures r.page == f.page && r.pageSize == f.pageSize
    ensures (CourseRows(r.items), r.totalCount) == CourseRepository.GetFiltered(s, f, now)
    ensures forall i :: 0 <= i < |r.items| ==>
      SessionRows(r.items[i].sessions) == Filter(s.sessions, SessionOf(r.items[i].row.id))
  {
    var q := CourseRepository.GetFiltered(s, f, now);
    var r := PagedResponse(f.page, f.pageSize, q.1, ListItems(s, q.0, now));
    assert forall i :: 0 <= i < |r.items| ==> r.items[i].row == CourseRows(r.items)[i];
    r
  }

  /** Every listed course is stored and matches the filter, the list runs by start date within a page size, and the total counts every match. */
  lemma GetCoursesMatches(s: CourseState, f: CourseFilterParams, now: DateTime)
    ensures var r := GetCourses(s, f, now);
      r.totalCount == Count(s.courses, CourseMatching(f, now)) &&
      |r.items| <= (if f.pageSize <= 0 then 0 else f.pageSize) &&
      (forall c :: c in CourseRows(r.items) ==> c in s.courses && CourseMatchesFilter(f, now, c)) &&
      Sorted(CourseRows(r.items), Ascending(CourseStartDateOf))
  {
    var r := GetCourses(s, f, now);
    assert |r.items| == |CourseRows(r.items)|;
  }

  /** `GetCourse`: the course with its sessions, or NotFound. */
  function GetCourse(s: CourseState, id: Guid, now: DateTime): (r: ActionResult<CourseDto>)
    ensures r.NotFound? <==> FindCourse(s, id).None?
    ensures r.NotFound? ==> r.reason == CourseNotFound
    ensures r.NotFound? || r.Ok?
    ensures r.Ok? ==> r.value.row in s.courses && r.value.row.id == id
    ensures r.Ok? ==> forall x :: x in SessionRows(r.value.sessions) <==> x in s.sessions && x.courseId == id
  {
    match GetByIdWithDetails(s, id)
    case None => NotFound(CourseNotFound)
    case Some(details) => Ok(MapToCourseDto(details.course, details.sessions, now))
  }

  // ---- CreateCourse ----

  /** The currency a new course gets when the request names none. */
  const DefaultCurrency: string := "USD"

  /** The course `CreateCourse` builds: no enrollments yet, active. */
  function NewCourse(id: Guid, d: CreateCourseDto, now: DateTime, user: Option<string>): Course {
    Course(id, d.name, d.description, d.danceStyle, d.difficultyLevel, d.startDate, d.endDate,
           d.durationMinutes, d.capacity, 0, d.location, d.instructorId, d.instructorName, true,
           d.price, d.currency.GetOr(DefaultCurrency), NewAudit(now, user))
  }

  /** The inline sessions, the `i`-th receiving `sessionIds[i]`, built as `AddSession` builds one. */
  function InlineSessions(course: Course, ds: seq<CreateSessionDto>, sessionIds: seq<Guid>, now: DateTime, user: Option<string>)
    : (r: seq<CourseSession>)
    requires |sessionIds| == |ds|
    ensures |r| == |ds|
    ensures forall i :: 0 <= i < |r| ==> r[i] == NewSession(sessionIds[i], course, ds[i], now, user)
  {
    seq(|ds|, i requires 0 <= i < |ds| => NewSession(sessionIds[i], course, ds[i], now, user))
  }

  /** `CreateCourse`; `newId` and `sessionIds` are the ids generated for the course and its inline sessions. */
  function CreateCourseStep(s: CourseState, d: CreateCourseDto, newId: Guid, sessionIds: seq<Guid>, now: DateTime, user: Option<string>)
    : (r: Step<CourseState, CourseDto>)
    requires |sessionIds| == |d.SessionList()|
    ensures NameExists(s, d.name, None) ==> r == Step(s, BadRequest(NameTaken))
    ensures !NameExists(s, d.name, None) && d.endDate <= d.startDate ==> r == Step(s, BadRequest(CourseEndNotAfterStart))
    ensures r.result.IsSuccess() <==> !NameExists(s, d.name, None) && d.startDate < d.endDate
    ensures r.result.IsSuccess() ==>
      var c := NewCourse(newId, d, now, user);
      var inline := InlineSessions(c, d.SessionList(), sessionIds, now, user);
      r.state == CourseAdded(s, c, inline) && r.result == Created(MapToCourseDto(c, inline, now))
  {
    if NameExists(s, d.name, None) then Step(s, BadRequest(NameTaken))
    else if d.endDate <= d.startDate then Step(s, BadRequest(CourseEndNotAfterStart))
    else
      var c := NewCourse(newId, d, now, user);
      var inline := InlineSessions(c, d.SessionList(), sessionIds, now, user);
      Step(CourseAdded(s, c, inline), Created(MapToCourseDto(c, inline, now)))
  }

  /** Fresh, pairwise distinct ids for the inline sessions. */
  predicate FreshSessionIds(s: CourseState, ids: seq<Guid>) {
    (forall i :: 0 <= i < |ids| ==> SessionIndex(s, ids[i]).None?) &&
    (forall i, j :: 0 <= i < j < |ids| ==> ids[i] != ids[j])
  }

  /** Fresh ids keep the session keys unique once the inline sessions are appended. */
  lemma InlineKeysUnique(s: CourseState, inline: seq<CourseSession>, ids: seq<Guid>)
    requires UniqueBy(s.sessions, SessionKey) && FreshSessionIds(s, ids)
    requires |inline| == |ids| && forall i :: 0 <= i < |inline| ==> inline[i].id == ids[i]
    ensures UniqueBy(s.sessions + inline, SessionKey)
  {
    var all := s.sessions + inline;
    forall i, j | 0 <= i < j < |all| ensures SessionKey(all[i]) != SessionKey(all[j]) {
      if j >= |s.sessions| {
        var j' := j - |s.sessions|;
        assert all[j] == inline[j'];
        if i >= |s.sessions| {
          assert all[i] == inline[i - |s.sessions|];
        } else {
          assert all[i] == s.sessions[i];
          assert SessionIndex(s, ids[j']).None?;
        }
      }
    }
  }

  /** A created course is stored valid: its counter at zero with no enrollment rows, active, and its currency defaulted. */
  lemma CreateCourseStores(s: CourseState, d: CreateCourseDto, newId: Guid, sessionIds: seq<Guid>, now: DateTime, user: Option<string>)
    requires Valid(s) && CourseIndex(s, newId).None? && FreshSessionIds(s, sessionIds)
    requires |sessionIds| == |d.SessionList()|
    requires CreateCourseStep(s, d, newId, sessionIds, now, user).result.IsSuccess()
    ensures var t := CreateCourseStep(s, d, newId, sessionIds, now, user).state;
      Valid(t) && FindCourse(t, newId).Some? && EnrollmentRows(t, newId) == 0 &&
      var c := FindCourse(t, newId).value;
      c.enrollmentCount == 0 && c.isActive && c.name == d.name && c.startDate < c.endDate &&
      c.currency == (if d.currency.Some? then d.currency.value else "USD")
  {
    var c := NewCourse(newId, d, now, user);
    var inline := InlineSessions(c, d.SessionList(), sessionIds, now, user);
    InlineKeysUnique(s, inline, sessionIds);
    CourseAddedValid(s, c, inline);
    NewCourseRows(s, c, inline);
  }

  /** A created course owns exactly its inline sessions: one per requested session, each with one of the generated ids, none canceled. */
  lemma CreateCourseSessions(s: CourseState, d: CreateCourseDto, newId: Guid, sessionIds: seq<Guid>, now: DateTime, user: Option<string>)
    requires Valid(s) && CourseIndex(s, newId).None?
    requires |sessionIds| == |d.SessionList()|
    requires CreateCourseStep(s, d, newId, sessionIds, now, user).result.IsSuccess()
    ensures var rows := GetSessionsForCourse(CreateCourseStep(s, d, newId, sessionIds, now, user).state, newId);
      |rows| == |d.SessionList()| &&
      forall x :: x in rows ==> x.id in sessionIds && !x.isCanceled && x.courseId == newId
  {
    var c := NewCourse(newId, d, now, user);
    var inline := InlineSessions(c, d.SessionList(), sessionIds, now, user);
    NewCourseRows(s, c, inline);
    InlineRowsCounted(CourseAdded(s, c, inline), inline, newId);
    forall x | x in inline ensures x.id in sessionIds && !x.isCanceled {
      var k :| 0 <= k < |inline| && inline[k] == x;
      assert x.id == sessionIds[k];
    }
  }

  /** `GetSessionsForCourse` returns the course's filtered sessions, so as many and the same ones. */
  lemma InlineRowsCounted(t: CourseState, inline: seq<CourseSession>, id: Guid)
    requires Filter(t.sessions, SessionOf(id)) == inline
    ensures |GetSessionsForCourse(t, id)| == |inline|
    ensures forall x :: x in GetSessionsForCourse(t, id) ==> x in inline
  {
    var rows := GetSessionsForCourse(t, id);
    assert multiset(rows) == multiset(inline);
    assert |rows| == |multiset(rows)|;
    forall x | x in rows ensures x in inline {
      assert x in multiset(inline);
    }
  }

  /** A course added under a fresh id owns exactly the sessions added with it, and no enrollment. */
  lemma NewCourseRows(s: CourseState, c: Course, inline: seq<CourseSession>)
    requires ForeignKeys(s) && CourseIndex(s, c.id).None?
    requires forall j :: 0 <= j < |inline| ==> inline[j].courseId == c.id
    ensures Filter(CourseAdded(s, c, inline).sessions, SessionOf(c.id)) == inline
    ensures EnrollmentRows(CourseAdded(s, c, inline), c.id) == 0
  {
    forall i | 0 <= i < |s.sessions| ensures !SessionOf(c.id)(s.sessions[i]) {
      assert CourseIndex(s, s.sessions[i].courseId).Some?;
    }
    FilterNone(s.sessions, SessionOf(c.id));
    FilterAll(inline, SessionOf(c.id));
    FilterConcat(s.sessions, inline, SessionOf(c.id));
    forall i | 0 <= i < |s.enrollments| ensures !EnrolledIn(c.id)(s.enrollments[i]) {
      assert CourseIndex(s, s.enrollments[i].courseId).Some?;
    }
    FilterNone(s.enrollments, EnrolledIn(c.id));
  }

  /** Once a course exists under a non-blank name, creating another with that name is refused. */
  lemma SecondCourseNameRefused(s: CourseState, d: CreateCourseDto, newId: Guid, sessionIds: seq<Guid>,
                                d2: CreateCourseDto, newId2: Guid, sessionIds2: seq<Guid>, now: DateTime, user: Option<string>)
    requires |sessionIds| == |d.SessionList()| && |sessionIds2| == |d2.SessionList()|
    requires CreateCourseStep(s, d, newId, sessionIds, now, user).result.IsSuccess()
    requires d2.name == d.name && RequiredText(d.name)
    ensures var t := CreateCourseStep(s, d, newId, sessionIds, now, user).state;
      CreateCourseStep(t, d2, newId2, sessionIds2, now, user) == Step(t, BadRequest(NameTaken))
  {
    var t := CreateCourseStep(s, d, newId, sessionIds, now, user).state;
    assert t.courses[|s.courses|].name == d.name;
  }

  /** The inline sessions are not checked: their times decide nothing about whether the course is created. */
  lemma InlineSessionsUnchecked(s: CourseState, d: CreateCourseDto, ds: seq<CreateSessionDto>, newId: Guid,
                                sessionIds: seq<Guid>, sessionIds2: seq<Guid>, now: DateTime, user: Option<string>)
    requires |sessionIds| == |d.SessionList()| && |sessionIds2| == |ds|
    ensures d.(sessions := Some(ds)).SessionList() == ds
    ensures CreateCourseStep(s, d, newId, sessionIds, now, user).result.IsSuccess() ==
            CreateCourseStep(s, d.(sessions := Some(ds)), newId, sessionIds2, now, user).result.IsSuccess()
  {
  }

  // ---- UpdateCourse ----

  /** The checks of `UpdateCourse`, in their order; `None` lets the update through. */
  function CourseUpdateRefusal(s: CourseState, course: Course, d: UpdateCourseDto): Option<Reason> {
    if d.name.Some? && d.name.value != course.name && NameExists(s, d.name.value, Some(course.id)) then Some(NameTaken)
    else if d.startDate.Some? && d.endDate.Some? && d.endDate.value <= d.startDate.value then Some(CourseEndNotAfterStart)
    else if d.startDate.Some? && d.endDate.None? && d.startDate.value >= course.endDate then Some(CourseStartNotBeforeEnd)
    else if d.startDate.None? && d.endDate.Some? && d.endDate.value <= course.startDate then Some(CourseEndNotAfterStart)
    else None
  }

  /** The partial update of `UpdateCourse`: each supplied field replaces the stored one. */
  function ApplyCourseUpdate(c: Course, d: UpdateCourseDto, now: DateTime, user: Option<string>): (r: Course)
    ensures r.id == c.id && r.enrollmentCount == c.enrollmentCount
    ensures r.audit == Touch(c.audit, now, user)
    ensures d == UpdateCourseDto(None, None, None, None, None, None, None, None, None, None, None, None, None, None) ==>
      r == c.(audit := Touch(c.audit, now, user))
  {
    c.(name := d.name.GetOr(c.name),
       description := d.description.OrElse(c.description),
       danceStyle := d.danceStyle.GetOr(c.danceStyle),
       difficultyLevel := d.difficultyLevel.GetOr(c.difficultyLevel),
       startDate := d.startDate.GetOr(c.startDate),
       endDate := d.endDate.GetOr(c.endDate),
       durationMinutes := d.durationMinutes.GetOr(c.durationMinutes),
       capacity := d.capacity.GetOr(c.capacity),
       location := d.location.OrElse(c.location),
       instructorId := d.instructorId.OrElse(c.instructorId),
       instructorName := d.instructorName.OrElse(c.instructorName),
       isActive := d.isActive.GetOr(c.isActive),
       price := d.price.GetOr(c.price),
       currency := d.currency.GetOr(c.currency),
       audit := Touch(c.audit, now, user))
  }

  /** A supplied field is taken from the body and an absent one is kept; no nullable text or id can be cleared. */
  lemma CourseUpdateOverwritesOnlySupplied(c: Course, d: UpdateCourseDto, now: DateTime, user: Option<string>)
    ensures var r := ApplyCourseUpdate(c, d, now, user);
      (d.name.Some? ==> r.name == d.name.value) && (d.name.None? ==> r.name == c.name) &&
      (d.description.Some? ==> r.description == d.description) && (d.description.None? ==> r.description == c.description) &&
      (d.danceStyle.Some? ==> r.danceStyle == d.danceStyle.value) && (d.danceStyle.None? ==> r.danceStyle == c.danceStyle) &&
      (d.difficultyLevel.Some? ==> r.difficultyLevel == d.difficultyLevel.value) &&
      (d.difficultyLevel.None? ==> r.difficultyLevel == c.difficultyLevel) &&
      (d.startDate.Some? ==> r.startDate == d.startDate.value) && (d.startDate.None? ==> r.startDate == c.startDate) &&
      (d.endDate.Some? ==> r.endDate == d.endDate.value) && (d.endDate.None? ==> r.endDate == c.endDate)
    ensures var r := ApplyCourseUpdate(c, d, now, user);
      (d.durationMinutes.Some? ==> r.durationMinutes == d.durationMinutes.value) &&
      (d.durationMinutes.None? ==> r.durationMinutes == c.durationMinutes) &&
      (d.capacity.Some? ==> r.capacity == d.capacity.value) && (d.capacity.None? ==> r.capacity == c.capacity) &&
      (d.location.Some? ==> r.location == d.location) && (d.location.None? ==> r.location == c.location) &&
      (d.instructorId.Some? ==> r.instructorId == d.instructorId) && (d.instructorId.None? ==> r.instructorId == c.instructorId) &&
      (d.instructorName.Some? ==> r.instructorName == d.instructorName) &&
      (d.instructorName.None? ==> r.instructorName == c.instructorName)
    ensures var r := ApplyCourseUpdate(c, d, now, user);
      (d.isActive.Some? ==> r.isActive == d.isActive.value) && (d.isActive.None? ==> r.isActive == c.isActive) &&
      (d.price.Some? ==> r.price == d.price.value) && (d.price.None? ==> r.price == c.price) &&
      (d.currency.Some? ==> r.currency == d.currency.value) && (d.currency.None? ==> r.currency == c.currency) &&
      (c.description.Some? ==> r.description.Some?) && (c.location.Some? ==> r.location.Some?) &&
      (c.instructorId.Some? ==> r.instructorId.Some?) && (c.instructorName.Some? ==> r.instructorName.Some?)
  {
  }

  /** Applying the same update twice is the same as applying it once. */
  lemma CourseUpdateIdempotent(c: Course, d: UpdateCourseDto, now: DateTime, user: Option<string>)
    ensures ApplyCourseUpdate(ApplyCourseUpdate(c, d, now, user), d, now, user) == ApplyCourseUpdate(c, d, now, user)
  {
  }

  /** An accepted update keeps a course's start before its end: each supplied date is checked against the other or the stored one. */
  lemma UpdateCourseKeepsDateOrder(s: CourseState, c: Course, d: UpdateCourseDto, now: DateTime, user: Option<string>)
    requires c.startDate < c.endDate
    requires CourseUpdateRefusal(s, c, d).None?
    ensures ApplyCourseUpdate(c, d, now, user).startDate < ApplyCourseUpdate(c, d, now, user).endDate
  {
  }

  /** The date checks refuse exactly the updates that would leave the end at or before the start. */
  lemma CourseDateChecksIff(s: CourseState, c: Course, d: UpdateCourseDto, now: DateTime, user: Option<string>)
    requires c.startDate < c.endDate
    requires d.name.None?
    ensures CourseUpdateRefusal(s, c, d).None? <==>
      ApplyCourseUpdate(c, d, now, user).startDate < ApplyCourseUpdate(c, d, now, user).endDate
  {
  }

  /** Capacity is not checked against the enrollments: lowering it to the counter or below is accepted and leaves the course full. */
  lemma CapacityMayDropBelowCount(s: CourseState, c: Course, d: UpdateCourseDto, now: DateTime, user: Option<string>)
    requires d.capacity.Some? && d.capacity.value <= c.enrollmentCount
    ensures CourseUpdateRefusal(s, c, d) == CourseUpdateRefusal(s, c, d.(capacity := None))
    ensures ApplyCourseUpdate(c, d, now, user).IsFull()
  {
  }

  /** `UpdateCourse` */
  function UpdateCourseStep(s: CourseState, id: Guid, d: UpdateCourseDto, now: DateTime, user: Option<string>)
    : (r: Step<CourseState, CourseDto>)
    ensures FindCourse(s, id).None? ==> r == Step(s, NotFound(CourseNotFound))
    ensures FindCourse(s, id).Some? && CourseUpdateRefusal(s, FindCourse(s, id).value, d).Some? ==>
      r == Step(s, BadRequest(CourseUpdateRefusal(s, FindCourse(s, id).value, d).value))
    ensures r.result.IsSuccess() <==> FindCourse(s, id).Some? && CourseUpdateRefusal(s, FindCourse(s, id).value, d).None?
    ensures r.result.IsSuccess() ==>
      var c := ApplyCourseUpdate(FindCourse(s, id).value, d, now, user);
      r.state == CourseUpdated(s, c) && r.result == Ok(MapToCourseDto(c, GetByIdWithDetails(s, id).value.sessions, now))
  {
    match GetByIdWithDetails(s, id)
    case None => Step(s, NotFound(CourseNotFound))
    case Some(details) =>
      match CourseUpdateRefusal(s, details.course, d)
      case Some(why) => Step(s, BadRequest(why))
      case None =>
        var c := ApplyCourseUpdate(details.course, d, now, user);
        Step(CourseUpdated(s, c), Ok(MapToCourseDto(c, details.sessions, now)))
  }

  /** A successful update keeps the store valid and the enrollment counter, and a changed non-blank name is then held by no other course. */
  lemma UpdateCourseValid(s: CourseState, id: Guid, d: UpdateCourseDto, now: DateTime, user: Option<string>)
    requires Valid(s)
    ensures Valid(UpdateCourseStep(s, id, d, now, user).state)
    ensures UpdateCourseStep(s, id, d, now, user).result.IsSuccess() ==>
      var t := UpdateCourseStep(s, id, d, now, user).state;
      FindCourse(t, id).Some? &&
      FindCourse(t, id).value.enrollmentCount == FindCourse(s, id).value.enrollmentCount &&
      EnrollmentRows(t, id) == EnrollmentRows(s, id) &&
      (d.name.Some? && d.name.value != FindCourse(s, id).value.name && RequiredText(d.name.value) ==>
        forall j :: 0 <= j < |t.courses| && t.courses[j].id != id ==> t.courses[j].name != d.name.value)
  {
    if UpdateCourseStep(s, id, d, now, user).result.IsSuccess() {
      var old_ := FindCourse(s, id).value;
      var c := ApplyCourseUpdate(old_, d, now, user);
      CourseUpdatedValid(s, c);
      var t := CourseUpdated(s, c);
      var k := CourseIndex(s, id).value;
      forall j | 0 <= j < |t.courses| && t.courses[j].id != id ensures j != k && t.courses[j] == s.courses[j] {
      }
    }
  }

  // ---- DeleteCourse ----

  /** `DeleteCourse` */
  function DeleteCourseStep(s: CourseState, id: Guid): (r: Step<CourseState, bool>)
    ensures FindCourse(s, id).None? <==> r == Step(s, NotFound(CourseNotFound))
    ensures FindCourse(s, id).Some? ==> r == Step(CourseDeleted(s, FindCourse(s, id).value), Ok(true))
  {
    match FindCourse(s, id)
    case None => Step(s, NotFound(CourseNotFound))
    case Some(c) => Step(CourseDeleted(s, c), Ok(true))
  }

  /** Deleting a course takes its sessions, its enrollments and their attendance with it, and keeps the store valid. */
  lemma DeleteCourseCascades(s: CourseState, id: Guid)
    requires Valid(s)
    ensures var t := DeleteCourseStep(s, id).state;
      Valid(t) && FindCourse(t, id).None? &&
      GetSessionsForCourse(t, id) == [] && EnrollmentRows(t, id) == 0
  {
    if FindCourse(s, id).Some? {
      CourseDeletedValid(s, FindCourse(s, id).value);
    } else {
      SessionsOfMissingCourse(s, id);
      forall i | 0 <= i < |s.enrollments| ensures !EnrolledIn(id)(s.enrollments[i]) {
        assert CourseIndex(s, s.enrollments[i].courseId).Some?;
      }
      FilterNone(s.enrollments, EnrolledIn(id));
    }
  }

  // ---- the actions on the context ----

  /** `CreateCourse` */
  method CreateCourse(db: CourseDb, d: CreateCourseDto, newId: Guid, sessionIds: seq<Guid>, now: DateTime, user: Option<string>)
    returns (result: ActionResult<CourseDto>)
    requires |sessionIds| == |d.SessionList()|
    modifies db
    ensures Step(db.State(), result) == CreateCourseStep(old(db.State()), d, newId, sessionIds, now, user)
  {
    if NameExists(db.State(), d.name, None) {
      return BadRequest(NameTaken);
    }
    if d.endDate <= d.startDate {
      return BadRequest(CourseEndNotAfterStart);
    }
    var c := NewCourse(newId, d, now, user);
    var inline := InlineSessions(c, d.SessionList(), sessionIds, now, user);
    AddCourse(db, c, inline);
    return Created(MapToCourseDto(c, inline, now));
  }

  /** `UpdateCourse`: the checks, then the supplied fields assigned one by one. */
  method UpdateCourse(db: CourseDb, id: Guid, d: UpdateCourseDto, now: DateTime, user: Option<string>)
    returns (result: ActionResult<CourseDto>)
    modifies db
    ensures Step(db.State(), result) == UpdateCourseStep(old(db.State()), id, d, now, user)
  {
    var details := GetByIdWithDetails(db.State(), id);
    if details.None? {
      return NotFound(CourseNotFound);
    }
    var c := details.value.course;
    var refusal := CourseUpdateRefusal(db.State(), c, d);
    if refusal.Some? {
      return BadRequest(refusal.value);
    }
    // each supplied field replaces the stored one; an absent one keeps it
    c := c.(name := d.name.GetOr(c.name));
    c := c.(description := d.description.OrElse(c.description));
    c := c.(danceStyle := d.danceStyle.GetOr(c.danceStyle));
    c := c.(difficultyLevel := d.difficultyLevel.GetOr(c.difficultyLevel));
    c := c.(startDate := d.startDate.GetOr(c.startDate));
    c := c.(endDate := d.endDate.GetOr(c.endDate));
    c := c.(durationMinutes := d.durationMinutes.GetOr(c.durationMinutes));
    c := c.(capacity := d.capacity.GetOr(c.capacity));
    c := c.(location := d.location.OrElse(c.location));
    c := c.(instructorId := d.instructorId.OrElse(c.instructorId));
    c := c.(instructorName := d.instructorName.OrElse(c.instructorName));
    c := c.(isActive := d.isActive.GetOr(c.isActive));
    c := c.(price := d.price.GetOr(c.price));
    c := c.(currency := d.currency.GetOr(c.currency));
    c := c.(audit := Touch(c.audit, now, user));
    assert c == ApplyCourseUpdate(details.value.course, d, now, user);
    CourseRepository.UpdateCourse(db, c);
    return Ok(MapToCourseDto(c, details.value.sessions, now));
  }

  /** `DeleteCourse` */
  method DeleteCourse(db: CourseDb, id: Guid) returns (result: ActionResult<bool>)
    modifies db
    ensures Step(db.State(), result) == DeleteCourseStep(old(db.State()), id)
  {
    var course := FindCourse(db.State(), id);
    if course.None? {
      return NotFound(CourseNotFound);
    }
    CourseRepository.DeleteCourse(db, course.value);
    return Ok(true);
  }
}

// The request bodies and query parameters of the course and session endpoints,
// with the data-annotation rules the framework checks before an action runs.

module CourseDtos {
  import opened Common
  import opened StringExtensions
  import opened CourseModel
  import opened Annotations

  datatype CreateSessionDto = CreateSessionDto(
    startDateTime: DateTime,
    endDateTime: DateTime,
    location: Option<string>,
    notes: Option<string>)
  {
    predicate Valid() {
      MaxLength(location, 200) && MaxLength(notes, 500)
    }
  }

  datatype CreateCourseDto = CreateCourseDto(
    name: string,
    description: Option<string>,
    danceStyle: DanceStyle,
    difficultyLevel: DifficultyLevel,
    startDate: DateTime,
    endDate: DateTime,
    durationMinutes: int,
    capacity: int,
    location: Option<string>,
    instructorId: Option<Guid>,
    instructorName: Option<string>,
    price: real,
    currency: Option<string>,
    sessions: Option<seq<CreateSessionDto>>)
  {
    predicate Valid() {
      RequiredText(name) && MaxLengthText(name, 100) && MaxLength(description, 1000) &&
      10 <= durationMinutes <= 240 && 1 <= capacity <= 100 &&
      MaxLength(location, 200) && MaxLength(instructorName, 200) &&
      0.0 <= price <= 10000.0 && MaxLength(currency, 3) &&
      (sessions.Some? ==> forall i :: 0 <= i < |sessions.value| ==> sessions.value[i].Valid())
    }

    /** The inline sessions to create (`Sessions != null && Sessions.Any()`). */
    function SessionList(): seq<CreateSessionDto> {
      if sessions.Some? then sessions.value else []
    }
  }

  datatype UpdateCourseDto = UpdateCourseDto(
    name: Option<string>,
    description: Option<string>,
    danceStyle: Option<DanceStyle>,
    difficultyLevel: Option<DifficultyLevel>,
    startDate: Option<DateTime>,
    endDate: Option<DateTime>,
    durationMinutes: Option<int>,
    capacity: Option<int>,
    location: Option<string>,
    instructorId: Option<Guid>,
    instructorName: Option<string>,
    isActive: Option<bool>,
    price: Option<real>,
    currency: Option<string>)
  {
    predicate Valid() {
      MaxLength(name, 100) && MaxLength(description, 1000) &&
      InRange(durationMinutes, 10, 240) && InRange(capacity, 1, 100) &&
      MaxLength(location, 200) && MaxLength(instructorName, 200) &&
      (price.None? || 0.0 <= price.value <= 10000.0) && MaxLength(currency, 3)
    }
  }

  datatype UpdateSessionDto = UpdateSessionDto(
    startDateTime: Option<DateTime>,
    endDateTime: Option<DateTime>,
    location: Option<string>,
    notes: Option<string>,
    isCanceled: Option<bool>,
    cancellationReason: Option<string>)
  {
    predicate Valid() {
      MaxLength(location, 200) && MaxLength(notes, 500) && MaxLength(cancellationReason, 500)
    }
  }


  datatype CourseFilterParams = CourseFilterParams(
    searchTerm: Option<string>,
    danceStyle: Option<DanceStyle>,
    difficultyLevel: Option<DifficultyLevel>,
    isActive: Option<bool>,
    startDateFrom: Option<DateTime>,
    startDateTo: Option<DateTime>,
    instructorId: Option<Guid>,
    hasAvailableSpots: Option<bool>,
    futureCoursesOnly: Option<bool>,
    page: int,
    pageSize: int)
  {
    predicate Valid() {
      1 <= page <= IntMax && 1 <= pageSize <= 100
    }
  }

  /** The parameters of a request that sets none: page 1 of 20, no filter. */
  function DefaultCourseFilter(): (f: CourseFilterParams)
    ensures f.Valid()
    ensures f.page == 1 && f.pageSize == 20
  {
    CourseFilterParams(None, None, None, None, None, None, None, None, None, 1, 20)
  }

  /** An update that sets nothing passes validation. */
  lemma EmptyUpdatesValid()
    ensures UpdateCourseDto(None, None, None, None, None, None, None, None, None, None, None, None, None, None).Valid()
    ensures UpdateSessionDto(None, None, None, None, None, None).Valid()
  {
  }

  /** A blank course name is refused before the action runs. */
  lemma BlankNameInvalid(d: CreateCourseDto)
    requires forall i :: 0 <= i < |d.name| ==> IsWhiteSpace(d.name[i])
    ensures !d.Valid()
  {
  }

  /** `AttendanceDto`: the row without its audit columns. */
  datatype AttendanceDto = AttendanceDto(
    id: Guid,
    sessionId: Guid,
    dancerId: Guid,
    dancerName: string,
    status: AttendanceStatus,
    recordedAt: Option<DateTime>,
    notes: Option<string>)

  function MapToAttendanceDto(a: SessionAttendance): AttendanceDto {
    AttendanceDto(a.id, a.sessionId, a.dancerId, a.dancerName, a.status, a.recordedAt, a.notes)
  }

  /** The DTOs of a list of attendance rows, one per row in the same order. */
  function MapAttendances(rows: seq<SessionAttendance>): (r: seq<AttendanceDto>)
    ensures |r| == |rows|
    ensures forall i :: 0 <= i < |r| ==> r[i] == MapToAttendanceDto(rows[i])
  {
    seq(|rows|, i requires 0 <= i < |rows| => MapToAttendanceDto(rows[i]))
  }
}

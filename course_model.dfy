// The entities of the Course service: courses, their sessions, the dancers enrolled
// in them and the attendance recorded per session.

module CourseModel {
  import opened Common

  datatype DanceStyle =
    | Ballet | Contemporary | Jazz | HipHop | Tap | Ballroom | Latin | Salsa
    | Breakdance | Folk | Modern | Swing | Lyrical | Other
  {
    /** The stored enum value. */
    function Value(): int {
      match this
      case Ballet => 0 case Contemporary => 1 case Jazz => 2 case HipHop => 3
      case Tap => 4 case Ballroom => 5 case Latin => 6 case Salsa => 7
      case Breakdance => 8 case Folk => 9 case Modern => 10 case Swing => 11
      case Lyrical => 12 case Other => 99
    }
  }

  /** Distinct styles are stored as distinct values. */
  lemma DanceStyleValueInjective(a: DanceStyle, b: DanceStyle)
    ensures a.Value() == b.Value() <==> a == b
  {
  }

  datatype DifficultyLevel = Beginner | Intermediate | Advanced | AllLevels

  datatype EnrollmentStatus = Active | Completed | Dropped | Waitlisted | Canceled

  datatype PaymentStatus = Pending | Paid | PartiallyPaid | Refunded | Failed

  datatype AttendanceStatus = Unknown | Present | Absent | Late | Excused

  /** `Course`; navigation collections are the rows carrying its id in the other tables. */
  datatype Course = Course(
    id: Guid,
    name: string,
    description: Option<string>,
    danceStyle: DanceStyle,
    difficultyLevel: DifficultyLevel,
    startDate: DateTime,
    endDate: DateTime,
    durationMinutes: int,
    capacity: int,
    enrollmentCount: int,
    location: Option<string>,
    instructorId: Option<Guid>,
    instructorName: Option<string>,
    isActive: bool,
    price: real,
    currency: string,
    audit: Audit)
  {
    /** `IsFull`: the stored counter has reached the capacity. */
    predicate IsFull() {
      enrollmentCount >= capacity
    }

    /** `HasStarted`, with `now` standing for `DateTime.UtcNow`. */
    predicate HasStarted(now: DateTime) {
      startDate < now
    }

    /** `HasEnded`, with `now` standing for `DateTime.UtcNow`. */
    predicate HasEnded(now: DateTime) {
      endDate < now
    }
  }

  /** For a course whose dates are in order, having ended implies having started. */
  lemma EndedImpliesStarted(c: Course, now: DateTime)
    requires c.startDate < c.endDate
    ensures c.HasEnded(now) ==> c.HasStarted(now)
    ensures !c.HasStarted(now) ==> !c.HasEnded(now)
  {
  }

  /** `CourseSession` */
  datatype CourseSession = CourseSession(
    id: Guid,
    courseId: Guid,
    startDateTime: DateTime,
    endDateTime: DateTime,
    location: Option<string>,
    notes: Option<string>,
    isCanceled: bool,
    cancellationReason: Option<string>,
    audit: Audit)
  {
    /** `(int)(EndDateTime - StartDateTime).TotalMinutes`: whole minutes, truncated toward zero. */
    function DurationMinutes(): int {
      TruncatedMinutes(endDateTime - startDateTime)
    }

    predicate HasStarted(now: DateTime) {
      startDateTime < now
    }

    predicate HasEnded(now: DateTime) {
      endDateTime < now
    }
  }

  /** For a session whose times are in order, having ended implies having started. */
  lemma SessionEndedImpliesStarted(x: CourseSession, now: DateTime)
    requires x.startDateTime < x.endDateTime
    ensures x.HasEnded(now) ==> x.HasStarted(now)
    ensures !x.HasStarted(now) ==> !x.HasEnded(now)
  {
  }

  /** The `(int)` cast of a minute count: division truncating toward zero, unlike Dafny's `/`. */
  function TruncatedMinutes(ticks: int): int {
    if ticks >= 0 then ticks / TicksPerMinute else -((-ticks) / TicksPerMinute)
  }

  /** The duration counts the whole minutes of the span, and never rounds up. */
  lemma DurationBounds(s: CourseSession)
    requires s.startDateTime <= s.endDateTime
    ensures s.DurationMinutes() >= 0
    ensures s.DurationMinutes() * TicksPerMinute <= s.endDateTime - s.startDateTime
    ensures s.endDateTime - s.startDateTime < (s.DurationMinutes() + 1) * TicksPerMinute
  {
  }

  /** Truncation makes the duration antisymmetric: swapping the ends only flips the sign. */
  lemma DurationAntisymmetric(s: CourseSession)
    ensures s.(startDateTime := s.endDateTime, endDateTime := s.startDateTime).DurationMinutes()
            == -s.DurationMinutes()
  {
  }

  /** A span just short of a minute, either way round, is zero minutes long. */
  lemma DurationTruncatesTowardZero()
    ensures TruncatedMinutes(TicksPerMinute - 1) == 0
    ensures TruncatedMinutes(-(TicksPerMinute - 1)) == 0
    ensures TruncatedMinutes(-TicksPerMinute - 1) == -1
  {
  }

  /** `CourseEnrollment` */
  datatype CourseEnrollment = CourseEnrollment(
    id: Guid,
    courseId: Guid,
    dancerId: Guid,
    dancerName: string,
    dancerEmail: Option<string>,
    enrollmentDate: DateTime,
    status: EnrollmentStatus,
    paymentStatus: PaymentStatus,
    amountPaid: real,
    notes: Option<string>,
    audit: Audit)

  /** `SessionAttendance` */
  datatype SessionAttendance = SessionAttendance(
    id: Guid,
    sessionId: Guid,
    dancerId: Guid,
    dancerName: string,
    status: AttendanceStatus,
    recordedAt: Option<DateTime>,
    notes: Option<string>,
    audit: Audit)
}

// Types shared by both services: nullable values, identifiers, instants,
// the audit columns every entity carries, and the outcomes of a controller action.

module Common {

  /** A C# nullable value (`T?`). */
  datatype Option<T> = None | Some(value: T) {
    /** `x ?? d` */
    function GetOr(d: T): T {
      if Some? then value else d
    }

    /** `x ?? y` where both sides are nullable. */
    function OrElse(other: Option<T>): Option<T> {
      if Some? then this else other
    }
  }

  /** A `Guid`; only equality matters. */
  datatype Guid = Guid(bits: nat)

  /** A `DateTime`, as its tick count (100 ns units). */
  type DateTime = int

  const TicksPerMinute: int := 600_000_000
  const TicksPerDay: int := 864_000_000_000

  /** The name recorded when no user is signed in (`User.Identity?.Name ?? "system"`). */
  const SystemUser: string := "system"

  function Actor(user: Option<string>): (r: string)
    ensures user.Some? ==> r == user.value
    ensures user.None? ==> r == SystemUser
  {
    user.GetOr(SystemUser)
  }

  /** The columns of `EntityBase` other than `Id`. */
  datatype Audit = Audit(createdAt: DateTime, createdBy: Option<string>,
                         lastModifiedAt: Option<DateTime>, lastModifiedBy: Option<string>)

  /** The audit columns of a row the current request creates. */
  function NewAudit(now: DateTime, user: Option<string>): (a: Audit)
    ensures a.createdAt == now && a.createdBy == Some(Actor(user))
    ensures a.lastModifiedAt.None? && a.lastModifiedBy.None?
  {
    Audit(now, Some(Actor(user)), None, None)
  }

  /** The audit columns after the current request modifies a row: creation is kept. */
  function Touch(a: Audit, now: DateTime, user: Option<string>): (r: Audit)
    ensures r.createdAt == a.createdAt && r.createdBy == a.createdBy
    ensures r.lastModifiedAt == Some(now) && r.lastModifiedBy == Some(Actor(user))
  {
    a.(lastModifiedAt := Some(now), lastModifiedBy := Some(Actor(user)))
  }

  /** Why an action was refused; one value per distinct message of the controllers. */
  datatype Reason =
    | CourseNotFound
    | SessionNotFound
    | EnrollmentNotFound
    | AttendanceNotFound
    | DancerNotFound
    | StyleNotFound
    | CourseFull                 // "This course is full"
    | AlreadyEnrolled            // "Dancer is already enrolled in this course"
    | NotEnrolled                // "Dancer is not enrolled in this course"
    | EnrollmentRecordMissing    // "Enrollment record not found"
    | NameTaken                  // "A course with the name ... already exists"
    | EmailTaken                 // "A dancer with email ... already exists"
    | StyleExists                // "Dancer already has style ..."
    | CourseEndNotAfterStart     // "End date must be after start date"
    | CourseStartNotBeforeEnd    // "Start date must be before end date"
    | EndNotAfterStart           // "End time must be after start time"
    | OutsideCourseDates         // "Session must fall within course start and end dates"
    | StartBeforeCourseStart     // "Session must start after course start date"
    | EndAfterCourseEnd          // "Session must end before course end date"
    | UniqueIndexViolation       // the database refuses the row

  /** The HTTP outcome of an action. */
  datatype ActionResult<T> =
    | Ok(value: T)
    | Created(value: T)
    | NotFound(reason: Reason)
    | BadRequest(reason: Reason)
    | ServerError(reason: Reason)
  {
    predicate IsSuccess() {
      Ok? || Created?
    }
  }

  /** The store after an action, and what the action answered. */
  datatype Step<S, T> = Step(state: S, result: ActionResult<T>)
}

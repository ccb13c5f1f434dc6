// The Course service's database context: its four tables, the keys, unique indexes and
// foreign keys it configures, the stored enrollment counter, and the cascading deletes.

module CourseData {
  import opened Common
  import opened Seqs
  import opened CourseModel

  /** The rows of `Course_Courses`, `Course_CourseSessions`, `Course_CourseEnrollments` and `Course_SessionAttendances`, in storage order. */
  datatype CourseState = CourseState(
    courses: seq<Course>,
    sessions: seq<CourseSession>,
    enrollments: seq<CourseEnrollment>,
    attendances: seq<SessionAttendance>)

  function CourseKey(c: Course): Guid { c.id }
  function SessionKey(x: CourseSession): Guid { x.id }
  function EnrollmentKey(e: CourseEnrollment): Guid { e.id }
  function AttendanceKey(a: SessionAttendance): Guid { a.id }

  /** The unique index on `(CourseId, DancerId)` of the enrollments. */
  function EnrollmentPair(e: CourseEnrollment): (Guid, Guid) { (e.courseId, e.dancerId) }

  /** The unique index on `(SessionId, DancerId)` of the attendance rows. */
  function AttendancePair(a: SessionAttendance): (Guid, Guid) { (a.sessionId, a.dancerId) }

  function CourseIndex(s: CourseState, id: Guid): Option<nat> { IndexOfKey(s.courses, CourseKey, id) }
  function SessionIndex(s: CourseState, id: Guid): Option<nat> { IndexOfKey(s.sessions, SessionKey, id) }
  function EnrollmentIndex(s: CourseState, id: Guid): Option<nat> { IndexOfKey(s.enrollments, EnrollmentKey, id) }
  function AttendanceIndex(s: CourseState, id: Guid): Option<nat> { IndexOfKey(s.attendances, AttendanceKey, id) }

  /** `FindAsync(id)` on the courses. */
  function FindCourse(s: CourseState, id: Guid): (r: Option<Course>)
    ensures r.Some? ==> r.value in s.courses && r.value.id == id
    ensures r.None? <==> forall j :: 0 <= j < |s.courses| ==> s.courses[j].id != id
  {
    match CourseIndex(s, id)
    case None => None
    case Some(k) => Some(s.courses[k])
  }

  /** `FindAsync(id)` on the sessions. */
  function FindSession(s: CourseState, id: Guid): (r: Option<CourseSession>)
    ensures r.Some? ==> r.value in s.sessions && r.value.id == id
    ensures r.None? <==> forall j :: 0 <= j < |s.sessions| ==> s.sessions[j].id != id
  {
    match SessionIndex(s, id)
    case None => None
    case Some(k) => Some(s.sessions[k])
  }

  /** The enrollments of course `c`. */
  function EnrolledIn(c: Guid): CourseEnrollment -> bool {
    (e: CourseEnrollment) => e.courseId == c
  }

  /** How many enrollment rows course `c` has. */
  function EnrollmentRows(s: CourseState, c: Guid): nat {
    Count(s.enrollments, EnrolledIn(c))
  }

  /** Primary keys and both unique indexes hold. */
  predicate KeysUnique(s: CourseState) {
    UniqueBy(s.courses, CourseKey) && UniqueBy(s.sessions, SessionKey) &&
    UniqueBy(s.enrollments, EnrollmentKey) && UniqueBy(s.attendances, AttendanceKey) &&
    UniqueBy(s.enrollments, EnrollmentPair) && UniqueBy(s.attendances, AttendancePair)
  }

  /** Sessions and enrollments belong to a stored course, attendance rows to a stored session. */
  predicate ForeignKeys(s: CourseState) {
    (forall i :: 0 <= i < |s.sessions| ==> CourseIndex(s, s.sessions[i].courseId).Some?) &&
    (forall i :: 0 <= i < |s.enrollments| ==> CourseIndex(s, s.enrollments[i].courseId).Some?) &&
    (forall i :: 0 <= i < |s.attendances| ==> SessionIndex(s, s.attendances[i].sessionId).Some?)
  }

  /** Every course's stored `EnrollmentCount` equals its number of enrollment rows. */
  predicate CountsMatch(s: CourseState) {
    forall i :: 0 <= i < |s.courses| ==> s.courses[i].enrollmentCount == EnrollmentRows(s, s.courses[i].id)
  }

  /** The constraints the database enforces, plus the counter the repositories maintain. */
  predicate Valid(s: CourseState) {
    KeysUnique(s) && ForeignKeys(s) && CountsMatch(s)
  }

  function EmptyStore(): CourseState {
    CourseState([], [], [], [])
  }

  lemma EmptyStoreValid()
    ensures Valid(EmptyStore())
    ensures FindCourse(EmptyStore(), Guid(0)).None?
  {
  }

  /** Under a valid store the lookup by id finds the one row with that id. */
  lemma FindCourseAt(s: CourseState, k: nat)
    requires KeysUnique(s) && k < |s.courses|
    ensures CourseIndex(s, s.courses[k].id) == Some(k)
    ensures FindCourse(s, s.courses[k].id) == Some(s.courses[k])
  {
    IndexOfUniqueKey(s.courses, CourseKey, k);
  }

  lemma FindSessionAt(s: CourseState, k: nat)
    requires KeysUnique(s) && k < |s.sessions|
    ensures SessionIndex(s, s.sessions[k].id) == Some(k)
    ensures FindSession(s, s.sessions[k].id) == Some(s.sessions[k])
  {
    IndexOfUniqueKey(s.sessions, SessionKey, k);
  }

  // ---- cascading deletes (OnDelete(DeleteBehavior.Cascade)) ----

  function NotOfSession(sessionId: Guid): SessionAttendance -> bool {
    (a: SessionAttendance) => a.sessionId != sessionId
  }

  /** The store after the session at `i` is deleted: its attendance rows go with it. */
  function WithoutSession(s: CourseState, i: nat): CourseState
    requires i < |s.sessions|
  {
    s.(sessions := RemoveAt(s.sessions, i),
       attendances := Filter(s.attendances, NotOfSession(s.sessions[i].id)))
  }

  function NotInCourse(c: Guid): CourseSession -> bool {
    (x: CourseSession) => x.courseId != c
  }

  function NotEnrolledIn(c: Guid): CourseEnrollment -> bool {
    (e: CourseEnrollment) => e.courseId != c
  }

  /** Attendance rows whose session is not one of course `c`'s sessions in `sessions`. */
  function NotOfCourseSession(sessions: seq<CourseSession>, c: Guid): SessionAttendance -> bool {
    (a: SessionAttendance) =>
      match IndexOfKey(sessions, SessionKey, a.sessionId)
      case None => true
      case Some(j) => sessions[j].courseId != c
  }

  /** The store after the course at `k` is deleted: its sessions, their attendance rows and its enrollments go with it. */
  function WithoutCourse(s: CourseState, k: nat): CourseState
    requires k < |s.courses|
  {
    var c := s.courses[k].id;
    CourseState(RemoveAt(s.courses, k),
                Filter(s.sessions, NotInCourse(c)),
                Filter(s.enrollments, NotEnrolledIn(c)),
                Filter(s.attendances, NotOfCourseSession(s.sessions, c)))
  }

  /** A row kept from a unique sequence is found again after a removal. */
  lemma StillFound<T(!new), K>(xs: seq<T>, ys: seq<T>, key: T -> K, j: nat)
    requires j < |xs| && xs[j] in ys
    ensures IndexOfKey(ys, key, key(xs[j])).Some?
  {
    var m :| 0 <= m < |ys| && ys[m] == xs[j];
  }

  lemma RemovedKeepsOthers<T(!new)>(xs: seq<T>, i: nat, j: nat)
    requires i < |xs| && j < |xs| && i != j
    ensures xs[j] in RemoveAt(xs, i)
  {
    var r := RemoveAt(xs, i);
    if j < i { assert r[j] == xs[j]; } else { assert r[j - 1] == xs[j]; }
  }

  /** Deleting a session keeps the store valid and leaves no attendance row pointing at it. */
  lemma WithoutSessionValid(s: CourseState, i: nat)
    requires Valid(s) && i < |s.sessions|
    ensures Valid(WithoutSession(s, i))
    ensures forall j :: 0 <= j < |WithoutSession(s, i).attendances| ==>
              WithoutSession(s, i).attendances[j].sessionId != s.sessions[i].id
  {
    var t := WithoutSession(s, i);
    var sid := s.sessions[i].id;
    UniqueRemoveAt(s.sessions, i, SessionKey);
    UniqueFilter(s.attendances, NotOfSession(sid), AttendanceKey);
    UniqueFilter(s.attendances, NotOfSession(sid), AttendancePair);
    forall j | 0 <= j < |t.attendances| ensures SessionIndex(t, t.attendances[j].sessionId).Some? {
      var a := t.attendances[j];
      assert a in s.attendances;
      var m :| 0 <= m < |s.attendances| && s.attendances[m] == a;
      var si := SessionIndex(s, a.sessionId).value;
      assert si != i;
      RemovedKeepsOthers(s.sessions, i, si);
      StillFound(s.sessions, t.sessions, SessionKey, si);
    }
  }

  lemma WithoutCourseKeys(s: CourseState, k: nat)
    requires KeysUnique(s) && k < |s.courses|
    ensures KeysUnique(WithoutCourse(s, k))
  {
    var c := s.courses[k].id;
    UniqueRemoveAt(s.courses, k, CourseKey);
    UniqueFilter(s.sessions, NotInCourse(c), SessionKey);
    UniqueFilter(s.enrollments, NotEnrolledIn(c), EnrollmentKey);
    UniqueFilter(s.enrollments, NotEnrolledIn(c), EnrollmentPair);
    UniqueFilter(s.attendances, NotOfCourseSession(s.sessions, c), AttendanceKey);
    UniqueFilter(s.attendances, NotOfCourseSession(s.sessions, c), AttendancePair);
  }

  /** A course other than the deleted one is still found afterwards. */
  lemma OtherCourseKept(s: CourseState, k: nat, id: Guid)
    requires k < |s.courses| && id != s.courses[k].id && CourseIndex(s, id).Some?
    ensures CourseIndex(WithoutCourse(s, k), id).Some?
  {
    var ci := CourseIndex(s, id).value;
    RemovedKeepsOthers(s.courses, k, ci);
    StillFound(s.courses, WithoutCourse(s, k).courses, CourseKey, ci);
  }

  lemma WithoutCourseSessionsFK(s: CourseState, k: nat)
    requires Valid(s) && k < |s.courses|
    ensures forall j :: 0 <= j < |WithoutCourse(s, k).sessions| ==>
              CourseIndex(WithoutCourse(s, k), WithoutCourse(s, k).sessions[j].courseId).Some?
  {
    var t := WithoutCourse(s, k);
    forall j | 0 <= j < |t.sessions| ensures CourseIndex(t, t.sessions[j].courseId).Some? {
      var x := t.sessions[j];
      assert x in s.sessions && x.courseId != s.courses[k].id;
      var m :| 0 <= m < |s.sessions| && s.sessions[m] == x;
      OtherCourseKept(s, k, x.courseId);
    }
  }

  lemma WithoutCourseEnrollmentsFK(s: CourseState, k: nat)
    requires Valid(s) && k < |s.courses|
    ensures forall j :: 0 <= j < |WithoutCourse(s, k).enrollments| ==>
              CourseIndex(WithoutCourse(s, k), WithoutCourse(s, k).enrollments[j].courseId).Some?
  {
    var t := WithoutCourse(s, k);
    forall j | 0 <= j < |t.enrollments| ensures CourseIndex(t, t.enrollments[j].courseId).Some? {
      var e := t.enrollments[j];
      assert e in s.enrollments && e.courseId != s.courses[k].id;
      var m :| 0 <= m < |s.enrollments| && s.enrollments[m] == e;
      OtherCourseKept(s, k, e.courseId);
    }
  }

  lemma WithoutCourseAttendancesFK(s: CourseState, k: nat)
    requires Valid(s) && k < |s.courses|
    ensures forall j :: 0 <= j < |WithoutCourse(s, k).attendances| ==>
              SessionIndex(WithoutCourse(s, k), WithoutCourse(s, k).attendances[j].sessionId).Some?
  {
    var t := WithoutCourse(s, k);
    var c := s.courses[k].id;
    forall j | 0 <= j < |t.attendances| ensures SessionIndex(t, t.attendances[j].sessionId).Some? {
      var a := t.attendances[j];
      assert a in s.attendances && NotOfCourseSession(s.sessions, c)(a);
      var m :| 0 <= m < |s.attendances| && s.attendances[m] == a;
      var si := SessionIndex(s, a.sessionId).value;
      assert s.sessions[si] in t.sessions;
      StillFound(s.sessions, t.sessions, SessionKey, si);
    }
  }

  lemma WithoutCourseForeignKeys(s: CourseState, k: nat)
    requires Valid(s) && k < |s.courses|
    ensures ForeignKeys(WithoutCourse(s, k))
  {
    WithoutCourseSessionsFK(s, k);
    WithoutCourseEnrollmentsFK(s, k);
    WithoutCourseAttendancesFK(s, k);
  }

  lemma WithoutCourseCounts(s: CourseState, k: nat)
    requires Valid(s) && k < |s.courses|
    ensures CountsMatch(WithoutCourse(s, k))
  {
    var t := WithoutCourse(s, k);
    var c := s.courses[k].id;
    forall j | 0 <= j < |t.courses| ensures t.courses[j].enrollmentCount == EnrollmentRows(t, t.courses[j].id) {
      var j' := if j < k then j else j + 1;
      assert t.courses[j] == s.courses[j'];
      assert s.courses[j'].id != c;
      FilterNarrow(s.enrollments, NotEnrolledIn(c), EnrolledIn(s.courses[j'].id));
    }
  }

  /** Deleting a course keeps the store valid and leaves no row pointing at it. */
  lemma WithoutCourseValid(s: CourseState, k: nat)
    requires Valid(s) && k < |s.courses|
    ensures Valid(WithoutCourse(s, k))
    ensures forall j :: 0 <= j < |WithoutCourse(s, k).sessions| ==> WithoutCourse(s, k).sessions[j].courseId != s.courses[k].id
    ensures forall j :: 0 <= j < |WithoutCourse(s, k).enrollments| ==> WithoutCourse(s, k).enrollments[j].courseId != s.courses[k].id
    ensures CourseIndex(WithoutCourse(s, k), s.courses[k].id).None?
  {
    WithoutCourseKeys(s, k);
    WithoutCourseForeignKeys(s, k);
    WithoutCourseCounts(s, k);
    var t := WithoutCourse(s, k);
    forall j | 0 <= j < |t.courses| ensures t.courses[j].id != s.courses[k].id {
      var j' := if j < k then j else j + 1;
      assert t.courses[j] == s.courses[j'];
    }
  }

  /** A change to the attendance rows alone keeps the foreign keys when each new row's session is stored. */
  lemma AttendanceForeignKeys(s: CourseState, t: CourseState)
    requires ForeignKeys(s)
    requires t.courses == s.courses && t.sessions == s.sessions && t.enrollments == s.enrollments
    requires forall j :: 0 <= j < |t.attendances| ==> SessionIndex(s, t.attendances[j].sessionId).Some?
    ensures ForeignKeys(t)
  {
  }

  /** The database context, holding each table's rows. */
  class CourseDb {
    var courses: seq<Course>
    var sessions: seq<CourseSession>
    var enrollments: seq<CourseEnrollment>
    var attendances: seq<SessionAttendance>

    function State(): CourseState
      reads this
    {
      CourseState(courses, sessions, enrollments, attendances)
    }

    constructor ()
      ensures State() == EmptyStore()
    {
      courses, sessions, enrollments, attendances := [], [], [], [];
    }
  }
}

// The enrollment repository: lookups and queries over enrollments and attendance rows,
// and the writes that keep each course's stored `EnrollmentCount` in step with its rows.

module EnrollmentRepository {
  import opened Common
  import opened Seqs
  import opened StringExtensions
  import opened CourseModel
  import opened EnrollmentDtos
  import opened CourseData

  // ---- enrollment queries ----

  /** `GetByIdAsync`: the enrollment with that id. */
  function GetById(s: CourseState, id: Guid): (r: Option<CourseEnrollment>)
    ensures r.Some? ==> r.value in s.enrollments && r.value.id == id
    ensures r.None? <==> forall j :: 0 <= j < |s.enrollments| ==> s.enrollments[j].id != id
  {
    match EnrollmentIndex(s, id)
    case None => None
    case Some(i) => Some(s.enrollments[i])
  }

  /** Under the primary key, the lookup finds exactly the stored row. */
  lemma GetByIdAt(s: CourseState, i: nat)
    requires KeysUnique(s) && i < |s.enrollments|
    ensures GetById(s, s.enrollments[i].id) == Some(s.enrollments[i])
    ensures EnrollmentIndex(s, s.enrollments[i].id) == Some(i)
  {
    IndexOfUniqueKey(s.enrollments, EnrollmentKey, i);
  }

  function DancerNameOf(e: CourseEnrollment): string { e.dancerName }

  /** `GetEnrollmentsForCourseAsync`: the course's enrollments by dancer name. */
  function GetEnrollmentsForCourse(s: CourseState, courseId: Guid): (r: seq<CourseEnrollment>)
    ensures Sorted(r, ByString(DancerNameOf))
    ensures multiset(r) == multiset(Filter(s.enrollments, EnrolledIn(courseId)))
    ensures forall e :: e in r <==> e in s.enrollments && e.courseId == courseId
    ensures |r| == EnrollmentRows(s, courseId)
  {
    StringKeyPreorder(DancerNameOf);
    SortBy(Filter(s.enrollments, EnrolledIn(courseId)), ByString(DancerNameOf))
  }

  function OfDancer(dancerId: Guid): CourseEnrollment -> bool {
    (e: CourseEnrollment) => e.dancerId == dancerId
  }

  /** The rows of the dancer that join a stored course (`Include(e => e.Course)` is an inner join). */
  function OfDancerWithCourse(s: CourseState, dancerId: Guid): CourseEnrollment -> bool {
    (e: CourseEnrollment) => e.dancerId == dancerId && CourseIndex(s, e.courseId).Some?
  }

  /** `e.Course!.StartDate`; the rows ordered by it always have a course. */
  function CourseStartOf(s: CourseState): CourseEnrollment -> int {
    (e: CourseEnrollment) =>
      match FindCourse(s, e.courseId)
      case Some(c) => c.startDate
      case None => 0
  }

  /** `GetEnrollmentsForDancerAsync`: the dancer's enrollments, latest course start first. */
  function GetEnrollmentsForDancer(s: CourseState, dancerId: Guid): (r: seq<CourseEnrollment>)
    ensures Sorted(r, Descending(CourseStartOf(s)))
    ensures multiset(r) == multiset(Filter(s.enrollments, OfDancerWithCourse(s, dancerId)))
    ensures forall e :: e in r <==> e in s.enrollments && e.dancerId == dancerId && CourseIndex(s, e.courseId).Some?
  {
    IntKeyPreorder(CourseStartOf(s));
    SortBy(Filter(s.enrollments, OfDancerWithCourse(s, dancerId)), Descending(CourseStartOf(s)))
  }

  /** In a store whose foreign keys hold, the join drops nothing: these are all the dancer's rows. */
  lemma DancerEnrollmentsComplete(s: CourseState, dancerId: Guid)
    requires ForeignKeys(s)
    ensures multiset(GetEnrollmentsForDancer(s, dancerId)) == multiset(Filter(s.enrollments, OfDancer(dancerId)))
  {
    FilterSame(s.enrollments, OfDancerWithCourse(s, dancerId), OfDancer(dancerId));
  }

  // ---- the filtered, paged query ----

  function WithStatus(st: EnrollmentStatus): CourseEnrollment -> bool {
    (e: CourseEnrollment) => e.status == st
  }

  function WithPayment(ps: PaymentStatus): CourseEnrollment -> bool {
    (e: CourseEnrollment) => e.paymentStatus == ps
  }

  function EnrolledFrom(t: DateTime): CourseEnrollment -> bool {
    (e: CourseEnrollment) => e.enrollmentDate >= t
  }

  function EnrolledUntil(t: DateTime): CourseEnrollment -> bool {
    (e: CourseEnrollment) => e.enrollmentDate <= t
  }

  /** The search: the term, lower-cased, occurs in the lower-cased name or e-mail. */
  predicate SearchHit(e: CourseEnrollment, term: string) {
    ContainsIgnoreCase(e.dancerName, term) ||
    (e.dancerEmail.Some? && ContainsIgnoreCase(e.dancerEmail.value, term))
  }

  function Searching(term: string): CourseEnrollment -> bool {
    (e: CourseEnrollment) => SearchHit(e, term)
  }

  /** The `Where` clauses `GetFilteredAsync` adds, in the order it adds them. */
  function EnrollmentFilters(f: EnrollmentFilterParams): seq<CourseEnrollment -> bool> {
    (if f.courseId.Some? then [EnrolledIn(f.courseId.value)] else []) +
    (if f.dancerId.Some? then [OfDancer(f.dancerId.value)] else []) +
    (if f.status.Some? then [WithStatus(f.status.value)] else []) +
    (if f.paymentStatus.Some? then [WithPayment(f.paymentStatus.value)] else []) +
    (if f.enrollmentDateFrom.Some? then [EnrolledFrom(f.enrollmentDateFrom.value)] else []) +
    (if f.enrollmentDateTo.Some? then [EnrolledUntil(f.enrollmentDateTo.value)] else []) +
    (if !IsNullOrWhiteSpace(f.searchTerm) then [Searching(f.searchTerm.value)] else [])
  }

  /** What the parameters ask of a row: every supplied criterion, both date bounds inclusive. */
  predicate MatchesFilter(f: EnrollmentFilterParams, e: CourseEnrollment) {
    (f.courseId.Some? ==> e.courseId == f.courseId.value) &&
    (f.dancerId.Some? ==> e.dancerId == f.dancerId.value) &&
    (f.status.Some? ==> e.status == f.status.value) &&
    (f.paymentStatus.Some? ==> e.paymentStatus == f.paymentStatus.value) &&
    (f.enrollmentDateFrom.Some? ==> f.enrollmentDateFrom.value <= e.enrollmentDate) &&
    (f.enrollmentDateTo.Some? ==> e.enrollmentDate <= f.enrollmentDateTo.value) &&
    (!IsNullOrWhiteSpace(f.searchTerm) ==> SearchHit(e, f.searchTerm.value))
  }

  function Matching(f: EnrollmentFilterParams): CourseEnrollment -> bool {
    (e: CourseEnrollment) => MatchesFilter(f, e)
  }

  /** A row passes the chain of clauses exactly when it meets every supplied criterion. */
  lemma FiltersMeanMatch(f: EnrollmentFilterParams, e: CourseEnrollment)
    ensures AllOf(EnrollmentFilters(f))(e) <==> MatchesFilter(f, e)
  {
    var ps := EnrollmentFilters(f);
    var p1 := if f.courseId.Some? then [EnrolledIn(f.courseId.value)] else [];
    var p2 := if f.dancerId.Some? then [OfDancer(f.dancerId.value)] else [];
    var p3 := if f.status.Some? then [WithStatus(f.status.value)] else [];
    var p4 := if f.paymentStatus.Some? then [WithPayment(f.paymentStatus.value)] else [];
    var p5 := if f.enrollmentDateFrom.Some? then [EnrolledFrom(f.enrollmentDateFrom.value)] else [];
    var p6 := if f.enrollmentDateTo.Some? then [EnrolledUntil(f.enrollmentDateTo.value)] else [];
    var p7 := if !IsNullOrWhiteSpace(f.searchTerm) then [Searching(f.searchTerm.value)] else [];
    AllOfSeven(p1, p2, p3, p4, p5, p6, p7, e);
    if f.courseId.Some? { AllOfOptional(true, EnrolledIn(f.courseId.value), e); }
    if f.dancerId.Some? { AllOfOptional(true, OfDancer(f.dancerId.value), e); }
    if f.status.Some? { AllOfOptional(true, WithStatus(f.status.value), e); }
    if f.paymentStatus.Some? { AllOfOptional(true, WithPayment(f.paymentStatus.value), e); }
    if f.enrollmentDateFrom.Some? { AllOfOptional(true, EnrolledFrom(f.enrollmentDateFrom.value), e); }
    if f.enrollmentDateTo.Some? { AllOfOptional(true, EnrolledUntil(f.enrollmentDateTo.value), e); }
    if !IsNullOrWhiteSpace(f.searchTerm) { AllOfOptional(true, Searching(f.searchTerm.value), e); }
  }

  /** The chain of clauses keeps exactly the rows that meet the criteria, in storage order. */
  lemma ChainIsMatching(s: CourseState, f: EnrollmentFilterParams)
    ensures WhereAll(s.enrollments, EnrollmentFilters(f)) == Filter(s.enrollments, Matching(f))
  {
    WhereAllIsConjunction(s.enrollments, EnrollmentFilters(f));
    forall i | 0 <= i < |s.enrollments|
      ensures AllOf(EnrollmentFilters(f))(s.enrollments[i]) == Matching(f)(s.enrollments[i])
    {
      FiltersMeanMatch(f, s.enrollments[i]);
    }
    FilterSame(s.enrollments, AllOf(EnrollmentFilters(f)), Matching(f));
  }

  function EnrollmentDateOf(e: CourseEnrollment): int { e.enrollmentDate }

  /** The rows the filter keeps, newest enrollment first. */
  function FilteredEnrollments(s: CourseState, f: EnrollmentFilterParams): (r: seq<CourseEnrollment>)
    ensures Sorted(r, Descending(EnrollmentDateOf))
    ensures forall e :: e in r <==> e in s.enrollments && MatchesFilter(f, e)
    ensures multiset(r) == multiset(Filter(s.enrollments, Matching(f)))
    ensures |r| == Count(s.enrollments, Matching(f))
  {
    ChainIsMatching(s, f);
    IntKeyPreorder(EnrollmentDateOf);
    SortBy(WhereAll(s.enrollments, EnrollmentFilters(f)), Descending(EnrollmentDateOf))
  }

  /** `GetFilteredAsync`: one page of the filtered rows, and how many rows the filter keeps. */
  function GetFiltered(s: CourseState, f: EnrollmentFilterParams): (r: (seq<CourseEnrollment>, int))
    ensures r.1 == Count(s.enrollments, Matching(f)) == |FilteredEnrollments(s, f)|
    ensures forall e :: e in r.0 ==> e in s.enrollments && MatchesFilter(f, e)
    ensures Sorted(r.0, Descending(EnrollmentDateOf))
    ensures |r.0| <= if f.pageSize <= 0 then 0 else f.pageSize
    ensures r.0 == PageOf(FilteredEnrollments(s, f), f.page, f.pageSize)
  {
    var ordered := FilteredEnrollments(s, f);
    PageOfSorted(ordered, f.page, f.pageSize, Descending(EnrollmentDateOf));
    (PageOf(ordered, f.page, f.pageSize), |ordered|)
  }

  /** `IsEnrolledAsync`: some row pairs the course with the dancer. */
  function IsEnrolled(s: CourseState, courseId: Guid, dancerId: Guid): (r: bool)
    ensures r <==> exists i :: 0 <= i < |s.enrollments| && EnrollmentPair(s.enrollments[i]) == (courseId, dancerId)
  {
    Any(s.enrollments, KeyIs(EnrollmentPair, (courseId, dancerId)))
  }

  /** Whether a dancer counts as enrolled does not depend on the status, payment or notes of the row. */
  lemma IsEnrolledIgnoresStatus(s: CourseState, i: nat, st: EnrollmentStatus, ps: PaymentStatus, courseId: Guid, dancerId: Guid)
    requires i < |s.enrollments|
    ensures IsEnrolled(s.(enrollments := s.enrollments[i := s.enrollments[i].(status := st, paymentStatus := ps)]), courseId, dancerId)
         == IsEnrolled(s, courseId, dancerId)
  {
    var t := s.(enrollments := s.enrollments[i := s.enrollments[i].(status := st, paymentStatus := ps)]);
    if IsEnrolled(s, courseId, dancerId) {
      var j :| 0 <= j < |s.enrollments| && EnrollmentPair(s.enrollments[j]) == (courseId, dancerId);
      assert EnrollmentPair(t.enrollments[j]) == (courseId, dancerId);
    }
    if IsEnrolled(t, courseId, dancerId) {
      var j :| 0 <= j < |t.enrollments| && EnrollmentPair(t.enrollments[j]) == (courseId, dancerId);
      assert EnrollmentPair(s.enrollments[j]) == (courseId, dancerId);
    }
  }

  // ---- attendance queries ----

  function AttendeeNameOf(a: SessionAttendance): string { a.dancerName }

  function OfSession(sessionId: Guid): SessionAttendance -> bool {
    (a: SessionAttendance) => a.sessionId == sessionId
  }

  /** `GetAttendancesForSessionAsync`: the session's attendance rows by dancer name. */
  function GetAttendancesForSession(s: CourseState, sessionId: Guid): (r: seq<SessionAttendance>)
    ensures Sorted(r, ByString(AttendeeNameOf))
    ensures multiset(r) == multiset(Filter(s.attendances, OfSession(sessionId)))
    ensures forall a :: a in r <==> a in s.attendances && a.sessionId == sessionId
  {
    StringKeyPreorder(AttendeeNameOf);
    SortBy(Filter(s.attendances, OfSession(sessionId)), ByString(AttendeeNameOf))
  }

  /** Rows in dancer-name order have their names in order. */
  lemma NamesInOrder(rows: seq<SessionAttendance>)
    requires Sorted(rows, ByString(AttendeeNameOf))
    ensures forall i, j :: 0 <= i < j < |rows| ==> StrLe(rows[i].dancerName, rows[j].dancerName)
  {
    forall i, j | 0 <= i < j < |rows| ensures StrLe(rows[i].dancerName, rows[j].dancerName) {
      assert ByString(AttendeeNameOf)(rows[i], rows[j]);
      assert StrLe(AttendeeNameOf(rows[i]), AttendeeNameOf(rows[j]));
      assert AttendeeNameOf(rows[i]) == rows[i].dancerName && AttendeeNameOf(rows[j]) == rows[j].dancerName;
    }
  }

  /** The repository's list for a session holds the session's stored rows, as many as it has. */
  lemma SessionListed(s: CourseState, sessionId: Guid)
    ensures var rows := GetAttendancesForSession(s, sessionId);
      |rows| == Count(s.attendances, OfSession(sessionId)) &&
      forall i :: 0 <= i < |rows| ==> rows[i] in s.attendances && rows[i].sessionId == sessionId
  {
    var rows := GetAttendancesForSession(s, sessionId);
    assert |multiset(rows)| == |multiset(Filter(s.attendances, OfSession(sessionId)))|;
    assert forall i :: 0 <= i < |rows| ==> rows[i] in rows;
  }

  /** `GetAttendanceByIdAsync` */
  function GetAttendanceById(s: CourseState, id: Guid): (r: Option<SessionAttendance>)
    ensures r.Some? ==> r.value in s.attendances && r.value.id == id
    ensures r.None? <==> forall j :: 0 <= j < |s.attendances| ==> s.attendances[j].id != id
  {
    match AttendanceIndex(s, id)
    case None => None
    case Some(i) => Some(s.attendances[i])
  }

  /** `GetAttendanceAsync`: the row of that dancer in that session. */
  function GetAttendance(s: CourseState, sessionId: Guid, dancerId: Guid): (r: Option<SessionAttendance>)
    ensures r.Some? ==> r.value in s.attendances && r.value.sessionId == sessionId && r.value.dancerId == dancerId
    ensures r.None? <==> forall j :: 0 <= j < |s.attendances| ==> AttendancePair(s.attendances[j]) != (sessionId, dancerId)
  {
    match IndexOfKey(s.attendances, AttendancePair, (sessionId, dancerId))
    case None => None
    case Some(i) => Some(s.attendances[i])
  }

  /** Under the unique index on `(SessionId, DancerId)`, the lookup finds the one row of the pair. */
  lemma GetAttendanceAt(s: CourseState, i: nat)
    requires KeysUnique(s) && i < |s.attendances|
    ensures GetAttendance(s, s.attendances[i].sessionId, s.attendances[i].dancerId) == Some(s.attendances[i])
  {
    IndexOfUniqueKey(s.attendances, AttendancePair, i);
  }

  // ---- enrollment writes ----

  function CountShifted(c: Course, delta: int): Course {
    c.(enrollmentCount := c.enrollmentCount + delta)
  }

  /** `AddAsync`: the first course with the row's course id gains one on its counter, and the row is appended. */
  function Added(s: CourseState, e: CourseEnrollment): (r: CourseState)
    ensures r.enrollments == s.enrollments + [e]
    ensures r.sessions == s.sessions && r.attendances == s.attendances
    ensures |r.courses| == |s.courses|
    ensures forall j :: 0 <= j < |s.courses| ==> r.courses[j].id == s.courses[j].id
  {
    var courses :=
      match CourseIndex(s, e.courseId)
      case None => s.courses
      case Some(k) => s.courses[k := CountShifted(s.courses[k], 1)];
    s.(courses := courses, enrollments := s.enrollments + [e])
  }

  /** With course ids unique, exactly the row's course gains one, when it exists; nothing else moves. */
  lemma AddedCounter(s: CourseState, e: CourseEnrollment)
    requires UniqueBy(s.courses, CourseKey)
    ensures forall j :: 0 <= j < |s.courses| ==>
      Added(s, e).courses[j] == if s.courses[j].id == e.courseId then CountShifted(s.courses[j], 1) else s.courses[j]
  {
    forall j | 0 <= j < |s.courses| && s.courses[j].id == e.courseId
      ensures CourseIndex(s, e.courseId) == Some(j)
    {
      IndexOfUniqueKey(s.courses, CourseKey, j);
    }
  }

  /** `AddAsync` keeps every counter equal to its course's number of rows. */
  lemma AddedKeepsCounts(s: CourseState, e: CourseEnrollment)
    requires UniqueBy(s.courses, CourseKey) && CountsMatch(s)
    ensures CountsMatch(Added(s, e))
  {
    var t := Added(s, e);
    AddedCounter(s, e);
    forall j | 0 <= j < |t.courses| ensures t.courses[j].enrollmentCount == EnrollmentRows(t, t.courses[j].id) {
      CountConcat(s.enrollments, [e], EnrolledIn(s.courses[j].id));
      assert Filter([e], EnrolledIn(s.courses[j].id)) == if e.courseId == s.courses[j].id then [e] else [];
    }
  }

  /** Course ids are untouched, so every course still found is found again. */
  lemma CourseIdsKept(s: CourseState, t: CourseState)
    requires |t.courses| == |s.courses|
    requires forall j :: 0 <= j < |s.courses| ==> t.courses[j].id == s.courses[j].id
    ensures forall id :: CourseIndex(s, id).Some? ==> CourseIndex(t, id).Some?
    ensures UniqueBy(s.courses, CourseKey) ==> UniqueBy(t.courses, CourseKey)
  {
    forall id | CourseIndex(s, id).Some? ensures CourseIndex(t, id).Some? {
      var k := CourseIndex(s, id).value;
      assert t.courses[k].id == id;
    }
  }

  lemma AddedKeys(s: CourseState, e: CourseEnrollment)
    requires KeysUnique(s)
    requires EnrollmentIndex(s, e.id).None?
    requires !IsEnrolled(s, e.courseId, e.dancerId)
    ensures KeysUnique(Added(s, e))
  {
    CourseIdsKept(s, Added(s, e));
    UniqueAppend(s.enrollments, e, EnrollmentKey);
    UniqueAppend(s.enrollments, e, EnrollmentPair);
  }

  lemma AddedForeignKeys(s: CourseState, e: CourseEnrollment)
    requires ForeignKeys(s)
    requires CourseIndex(s, e.courseId).Some?
    ensures ForeignKeys(Added(s, e))
  {
    var t := Added(s, e);
    CourseIdsKept(s, t);
    forall i | 0 <= i < |t.enrollments| ensures CourseIndex(t, t.enrollments[i].courseId).Some? {
      if i < |s.enrollments| { assert t.enrollments[i] == s.enrollments[i]; }
    }
  }

  /** Adding a row with a fresh id, for a stored course and a dancer not yet in it, keeps the store valid. */
  lemma AddedValid(s: CourseState, e: CourseEnrollment)
    requires Valid(s)
    requires EnrollmentIndex(s, e.id).None?
    requires !IsEnrolled(s, e.courseId, e.dancerId)
    requires CourseIndex(s, e.courseId).Some?
    ensures Valid(Added(s, e))
  {
    AddedKeys(s, e);
    AddedForeignKeys(s, e);
    AddedKeepsCounts(s, e);
  }

  /** `DeleteAsync`: the row's course loses one on its counter only while the counter is positive, and the row goes. */
  function Deleted(s: CourseState, e: CourseEnrollment): (r: CourseState)
    requires EnrollmentIndex(s, e.id).Some?
    ensures r.enrollments == RemoveAt(s.enrollments, EnrollmentIndex(s, e.id).value)
    ensures r.sessions == s.sessions && r.attendances == s.attendances
    ensures |r.courses| == |s.courses|
    ensures forall j :: 0 <= j < |s.courses| ==> r.courses[j].id == s.courses[j].id
  {
    var courses :=
      match CourseIndex(s, e.courseId)
      case None => s.courses
      case Some(k) =>
        if s.courses[k].enrollmentCount > 0 then s.courses[k := CountShifted(s.courses[k], -1)] else s.courses;
    s.(courses := courses, enrollments := RemoveAt(s.enrollments, EnrollmentIndex(s, e.id).value))
  }

  /** With course ids unique, only the row's course can lose one, and only from a positive counter. */
  lemma DeletedCounter(s: CourseState, e: CourseEnrollment)
    requires UniqueBy(s.courses, CourseKey) && EnrollmentIndex(s, e.id).Some?
    ensures forall j :: 0 <= j < |s.courses| ==>
      Deleted(s, e).courses[j] ==
        if s.courses[j].id == e.courseId && s.courses[j].enrollmentCount > 0
        then CountShifted(s.courses[j], -1) else s.courses[j]
    ensures forall j :: 0 <= j < |s.courses| && s.courses[j].enrollmentCount >= 0 ==>
      Deleted(s, e).courses[j].enrollmentCount >= 0
  {
    forall j | 0 <= j < |s.courses| && s.courses[j].id == e.courseId
      ensures CourseIndex(s, e.courseId) == Some(j)
    {
      IndexOfUniqueKey(s.courses, CourseKey, j);
    }
  }

  /** Deleting a stored row keeps every counter equal to its course's number of rows. */
  lemma DeletedKeepsCounts(s: CourseState, e: CourseEnrollment)
    requires KeysUnique(s) && CountsMatch(s) && e in s.enrollments
    ensures EnrollmentIndex(s, e.id).Some?
    ensures CountsMatch(Deleted(s, e))
  {
    var m :| 0 <= m < |s.enrollments| && s.enrollments[m] == e;
    GetByIdAt(s, m);
    var t := Deleted(s, e);
    DeletedCounter(s, e);
    forall j | 0 <= j < |t.courses| ensures t.courses[j].enrollmentCount == EnrollmentRows(t, t.courses[j].id) {
      CountRemoveAt(s.enrollments, m, EnrolledIn(s.courses[j].id));
    }
  }

  lemma DeletedKeys(s: CourseState, e: CourseEnrollment)
    requires KeysUnique(s) && EnrollmentIndex(s, e.id).Some?
    ensures KeysUnique(Deleted(s, e))
  {
    var m := EnrollmentIndex(s, e.id).value;
    CourseIdsKept(s, Deleted(s, e));
    UniqueRemoveAt(s.enrollments, m, EnrollmentKey);
    UniqueRemoveAt(s.enrollments, m, EnrollmentPair);
  }

  lemma DeletedForeignKeys(s: CourseState, e: CourseEnrollment)
    requires ForeignKeys(s) && EnrollmentIndex(s, e.id).Some?
    ensures ForeignKeys(Deleted(s, e))
  {
    var t := Deleted(s, e);
    var m := EnrollmentIndex(s, e.id).value;
    CourseIdsKept(s, t);
    forall i | 0 <= i < |t.enrollments| ensures CourseIndex(t, t.enrollments[i].courseId).Some? {
      var i' := if i < m then i else i + 1;
      assert t.enrollments[i] == s.enrollments[i'];
    }
  }

  /** Deleting a stored row keeps the store valid. */
  lemma DeletedValid(s: CourseState, e: CourseEnrollment)
    requires Valid(s) && e in s.enrollments
    ensures EnrollmentIndex(s, e.id).Some?
    ensures Valid(Deleted(s, e))
  {
    DeletedKeepsCounts(s, e);
    DeletedKeys(s, e);
    DeletedForeignKeys(s, e);
  }

  /** `UpdateAsync`: the stored row with the same id is replaced; no counter moves. */
  function Updated(s: CourseState, e: CourseEnrollment): (r: CourseState)
    requires EnrollmentIndex(s, e.id).Some?
    ensures r.courses == s.courses && r.sessions == s.sessions && r.attendances == s.attendances
    ensures r.enrollments == s.enrollments[EnrollmentIndex(s, e.id).value := e]
  {
    s.(enrollments := s.enrollments[EnrollmentIndex(s, e.id).value := e])
  }

  lemma UpdatedKeys(s: CourseState, e: CourseEnrollment)
    requires KeysUnique(s) && EnrollmentIndex(s, e.id).Some?
    requires EnrollmentPair(e) == EnrollmentPair(s.enrollments[EnrollmentIndex(s, e.id).value])
    ensures KeysUnique(Updated(s, e))
  {
    var i := EnrollmentIndex(s, e.id).value;
    UniqueUpdate(s.enrollments, i, e, EnrollmentKey);
    UniqueUpdate(s.enrollments, i, e, EnrollmentPair);
  }

  lemma UpdatedForeignKeys(s: CourseState, e: CourseEnrollment)
    requires ForeignKeys(s) && EnrollmentIndex(s, e.id).Some?
    requires e.courseId == s.enrollments[EnrollmentIndex(s, e.id).value].courseId
    ensures ForeignKeys(Updated(s, e))
  {
    var t := Updated(s, e);
    forall j | 0 <= j < |t.enrollments| ensures CourseIndex(t, t.enrollments[j].courseId).Some? {
      assert t.enrollments[j].courseId == s.enrollments[j].courseId;
    }
  }

  lemma UpdatedKeepsCounts(s: CourseState, e: CourseEnrollment)
    requires CountsMatch(s) && EnrollmentIndex(s, e.id).Some?
    requires e.courseId == s.enrollments[EnrollmentIndex(s, e.id).value].courseId
    ensures CountsMatch(Updated(s, e))
  {
    var i := EnrollmentIndex(s, e.id).value;
    var t := Updated(s, e);
    forall j | 0 <= j < |t.courses| ensures t.courses[j].enrollmentCount == EnrollmentRows(t, t.courses[j].id) {
      CountUpdate(s.enrollments, i, e, EnrolledIn(t.courses[j].id));
    }
  }

  /** Replacing a row by one of the same course and dancer keeps the store valid and who is enrolled where. */
  lemma UpdatedValid(s: CourseState, e: CourseEnrollment)
    requires Valid(s) && EnrollmentIndex(s, e.id).Some?
    requires EnrollmentPair(e) == EnrollmentPair(s.enrollments[EnrollmentIndex(s, e.id).value])
    ensures Valid(Updated(s, e))
    ensures forall c, d :: IsEnrolled(Updated(s, e), c, d) == IsEnrolled(s, c, d)
  {
    UpdatedKeys(s, e);
    UpdatedForeignKeys(s, e);
    UpdatedKeepsCounts(s, e);
    forall c, d ensures IsEnrolled(Updated(s, e), c, d) == IsEnrolled(s, c, d) {
      UpdatedKeepsEnrolled(s, e, c, d);
    }
  }

  lemma UpdatedKeepsEnrolled(s: CourseState, e: CourseEnrollment, c: Guid, d: Guid)
    requires EnrollmentIndex(s, e.id).Some?
    requires EnrollmentPair(e) == EnrollmentPair(s.enrollments[EnrollmentIndex(s, e.id).value])
    ensures IsEnrolled(Updated(s, e), c, d) == IsEnrolled(s, c, d)
  {
    var t := Updated(s, e);
    if IsEnrolled(s, c, d) {
      var j :| 0 <= j < |s.enrollments| && EnrollmentPair(s.enrollments[j]) == (c, d);
      assert EnrollmentPair(t.enrollments[j]) == (c, d);
    }
    if IsEnrolled(t, c, d) {
      var j :| 0 <= j < |t.enrollments| && EnrollmentPair(t.enrollments[j]) == (c, d);
      assert EnrollmentPair(s.enrollments[j]) == (c, d);
    }
  }

  // ---- attendance writes ----

  /** `AddAttendanceAsync` */
  function AttendanceAdded(s: CourseState, a: SessionAttendance): (r: CourseState)
    ensures r.attendances == s.attendances + [a]
    ensures r.courses == s.courses && r.sessions == s.sessions && r.enrollments == s.enrollments
  {
    s.(attendances := s.attendances + [a])
  }

  lemma AttendanceAddedForeignKeys(s: CourseState, a: SessionAttendance)
    requires ForeignKeys(s) && SessionIndex(s, a.sessionId).Some?
    ensures ForeignKeys(AttendanceAdded(s, a))
  {
    var t := AttendanceAdded(s, a);
    forall i | 0 <= i < |t.attendances| ensures SessionIndex(s, t.attendances[i].sessionId).Some? {
      if i < |s.attendances| { assert t.attendances[i] == s.attendances[i]; }
    }
    AttendanceForeignKeys(s, t);
  }

  /** A row with a fresh id, for a stored session and a dancer without a row in it, keeps the store valid. */
  lemma AttendanceAddedValid(s: CourseState, a: SessionAttendance)
    requires Valid(s)
    requires AttendanceIndex(s, a.id).None?
    requires GetAttendance(s, a.sessionId, a.dancerId).None?
    requires SessionIndex(s, a.sessionId).Some?
    ensures Valid(AttendanceAdded(s, a))
  {
    UniqueAppend(s.attendances, a, AttendanceKey);
    UniqueAppend(s.attendances, a, AttendancePair);
    AttendanceAddedForeignKeys(s, a);
  }

  /** `UpdateAttendanceAsync`: the stored row with the same id is replaced. */
  function AttendanceUpdated(s: CourseState, a: SessionAttendance): (r: CourseState)
    requires AttendanceIndex(s, a.id).Some?
    ensures r.attendances == s.attendances[AttendanceIndex(s, a.id).value := a]
    ensures r.courses == s.courses && r.sessions == s.sessions && r.enrollments == s.enrollments
  {
    s.(attendances := s.attendances[AttendanceIndex(s, a.id).value := a])
  }

  lemma AttendanceUpdatedValid(s: CourseState, a: SessionAttendance)
    requires Valid(s) && AttendanceIndex(s, a.id).Some?
    requires AttendancePair(a) == AttendancePair(s.attendances[AttendanceIndex(s, a.id).value])
    ensures Valid(AttendanceUpdated(s, a))
  {
    var i := AttendanceIndex(s, a.id).value;
    var t := AttendanceUpdated(s, a);
    UniqueUpdate(s.attendances, i, a, AttendanceKey);
    UniqueUpdate(s.attendances, i, a, AttendancePair);
    forall j | 0 <= j < |t.attendances| ensures SessionIndex(s, t.attendances[j].sessionId).Some? {
      assert t.attendances[j].sessionId == s.attendances[j].sessionId;
    }
    AttendanceForeignKeys(s, t);
  }

  /** `DeleteAttendanceAsync`: the stored row with the same id goes. */
  function AttendanceDeleted(s: CourseState, a: SessionAttendance): (r: CourseState)
    requires AttendanceIndex(s, a.id).Some?
    ensures r.attendances == RemoveAt(s.attendances, AttendanceIndex(s, a.id).value)
    ensures r.courses == s.courses && r.sessions == s.sessions && r.enrollments == s.enrollments
  {
    s.(attendances := RemoveAt(s.attendances, AttendanceIndex(s, a.id).value))
  }

  lemma AttendanceDeletedForeignKeys(s: CourseState, a: SessionAttendance)
    requires ForeignKeys(s) && AttendanceIndex(s, a.id).Some?
    ensures ForeignKeys(AttendanceDeleted(s, a))
  {
    var i := AttendanceIndex(s, a.id).value;
    var t := AttendanceDeleted(s, a);
    forall j | 0 <= j < |t.attendances| ensures SessionIndex(s, t.attendances[j].sessionId).Some? {
      if j < i {
        assert t.attendances[j] == s.attendances[j];
      } else {
        assert t.attendances[j] == s.attendances[j + 1];
      }
    }
    AttendanceForeignKeys(s, t);
  }

  /** Deleting an attendance row keeps the store valid. */
  lemma AttendanceDeletedValid(s: CourseState, a: SessionAttendance)
    requires Valid(s) && AttendanceIndex(s, a.id).Some?
    ensures Valid(AttendanceDeleted(s, a))
  {
    var i := AttendanceIndex(s, a.id).value;
    UniqueRemoveAt(s.attendances, i, AttendanceKey);
    UniqueRemoveAt(s.attendances, i, AttendancePair);
    AttendanceDeletedForeignKeys(s, a);
  }

  /** Deleting an attendance row removes that row and no other. */
  lemma AttendanceDeletedRemovesOnly(s: CourseState, a: SessionAttendance)
    requires UniqueBy(s.attendances, AttendanceKey) && AttendanceIndex(s, a.id).Some?
    ensures AttendanceIndex(AttendanceDeleted(s, a), a.id).None?
    ensures forall x :: x in s.attendances && x.id != a.id ==> x in AttendanceDeleted(s, a).attendances
    ensures |AttendanceDeleted(s, a).attendances| == |s.attendances| - 1
  {
    var i := AttendanceIndex(s, a.id).value;
    var t := AttendanceDeleted(s, a);
    forall j | 0 <= j < |t.attendances| ensures t.attendances[j].id != a.id {
      var j' := if j < i then j else j + 1;
      assert t.attendances[j] == s.attendances[j'];
    }
    forall x | x in s.attendances && x.id != a.id ensures x in t.attendances {
      var m :| 0 <= m < |s.attendances| && s.attendances[m] == x;
      RemovedKeepsOthers(s.attendances, i, m);
    }
  }

  // ---- the repository's writes on the context ----

  /** `AddAsync` */
  method Add(db: CourseDb, e: CourseEnrollment)
    modifies db
    ensures db.State() == Added(old(db.State()), e)
  {
    var k := CourseIndex(db.State(), e.courseId);
    if k.Some? {
      var course := db.courses[k.value];
      db.courses := db.courses[k.value := course.(enrollmentCount := course.enrollmentCount + 1)];
    }
    db.enrollments := db.enrollments + [e];
  }

  /** `UpdateAsync` */
  method Update(db: CourseDb, e: CourseEnrollment)
    requires EnrollmentIndex(db.State(), e.id).Some?
    modifies db
    ensures db.State() == Updated(old(db.State()), e)
  {
    var i := EnrollmentIndex(db.State(), e.id).value;
    db.enrollments := db.enrollments[i := e];
  }

  /** `DeleteAsync` */
  method Delete(db: CourseDb, e: CourseEnrollment)
    requires EnrollmentIndex(db.State(), e.id).Some?
    modifies db
    ensures db.State() == Deleted(old(db.State()), e)
  {
    var i := EnrollmentIndex(db.State(), e.id).value;
    var k := CourseIndex(db.State(), e.courseId);
    if k.Some? && db.courses[k.value].enrollmentCount > 0 {
      var course := db.courses[k.value];
      db.courses := db.courses[k.value := course.(enrollmentCount := course.enrollmentCount - 1)];
    }
    db.enrollments := RemoveAt(db.enrollments, i);
  }

  /** `AddAttendanceAsync` */
  method AddAttendance(db: CourseDb, a: SessionAttendance)
    modifies db
    ensures db.State() == AttendanceAdded(old(db.State()), a)
  {
    db.attendances := db.attendances + [a];
  }

  /** `UpdateAttendanceAsync` */
  method UpdateAttendance(db: CourseDb, a: SessionAttendance)
    requires AttendanceIndex(db.State(), a.id).Some?
    modifies db
    ensures db.State() == AttendanceUpdated(old(db.State()), a)
  {
    var i := AttendanceIndex(db.State(), a.id).value;
    db.attendances := db.attendances[i := a];
  }

  /** `DeleteAttendanceAsync` */
  method DeleteAttendance(db: CourseDb, a: SessionAttendance)
    requires AttendanceIndex(db.State(), a.id).Some?
    modifies db
    ensures db.State() == AttendanceDeleted(old(db.State()), a)
  {
    var i := AttendanceIndex(db.State(), a.id).value;
    db.attendances := RemoveAt(db.attendances, i);
  }
}

// The course repository: the course with its related rows, the filtered and paged course
// list, the name check, the session queries, and the writes on courses and sessions.

module CourseRepository {
  import opened Common
  import opened Seqs
  import opened StringExtensions
  import opened CourseModel
  import opened CourseDtos
  import opened CourseData

  // ---- lookups ----

  function SessionOf(c: Guid): CourseSession -> bool {
    (x: CourseSession) => x.courseId == c
  }

  /** A course together with the rows its navigation collections load. */
  datatype CourseDetails = CourseDetails(course: Course, sessions: seq<CourseSession>, enrollments: seq<CourseEnrollment>)

  /** `GetByIdWithDetailsAsync`: the first course with that id, with its sessions and enrollments. */
  function GetByIdWithDetails(s: CourseState, id: Guid): (r: Option<CourseDetails>)
    ensures r.None? <==> forall j :: 0 <= j < |s.courses| ==> s.courses[j].id != id
    ensures r.Some? ==> r.value.course in s.courses && r.value.course.id == id
    ensures r.Some? ==> forall x :: x in r.value.sessions <==> x in s.sessions && x.courseId == id
    ensures r.Some? ==> forall e :: e in r.value.enrollments <==> e in s.enrollments && e.courseId == id
    ensures r.Some? ==> |r.value.enrollments| == EnrollmentRows(s, id)
  {
    match CourseIndex(s, id)
    case None => None
    case Some(k) => Some(CourseDetails(s.courses[k], Filter(s.sessions, SessionOf(id)), Filter(s.enrollments, EnrolledIn(id))))
  }

  /** In a valid store the details' course carries as its counter the number of rows it loads. */
  lemma DetailsCountMatches(s: CourseState, id: Guid)
    requires Valid(s) && GetByIdWithDetails(s, id).Some?
    ensures GetByIdWithDetails(s, id).value.course.enrollmentCount == |GetByIdWithDetails(s, id).value.enrollments|
    ensures FindCourse(s, id) == Some(GetByIdWithDetails(s, id).value.course)
  {
    var c := GetByIdWithDetails(s, id).value.course;
    var k :| 0 <= k < |s.courses| && s.courses[k] == c;
    FindCourseAt(s, k);
  }

  function SessionStartOf(x: CourseSession): int { x.startDateTime }

  /** `GetSessionsForCourseAsync`: the course's sessions, earliest first. */
  function GetSessionsForCourse(s: CourseState, courseId: Guid): (r: seq<CourseSession>)
    ensures Sorted(r, Ascending(SessionStartOf))
    ensures multiset(r) == multiset(Filter(s.sessions, SessionOf(courseId)))
    ensures forall x :: x in r <==> x in s.sessions && x.courseId == courseId
  {
    IntKeyPreorder(SessionStartOf);
    SortBy(Filter(s.sessions, SessionOf(courseId)), Ascending(SessionStartOf))
  }

  /** Where the foreign keys hold, a course that is not stored has no sessions. */
  lemma SessionsOfMissingCourse(s: CourseState, courseId: Guid)
    requires ForeignKeys(s) && CourseIndex(s, courseId).None?
    ensures GetSessionsForCourse(s, courseId) == []
  {
    forall i | 0 <= i < |s.sessions| ensures !SessionOf(courseId)(s.sessions[i]) {
      assert CourseIndex(s, s.sessions[i].courseId).Some?;
    }
    FilterNone(s.sessions, SessionOf(courseId));
  }

  // ---- the filtered, paged query ----

  /** The search: the term, lower-cased, occurs in the lower-cased name, description or instructor name. */
  predicate CourseSearchHit(c: Course, term: string) {
    ContainsIgnoreCase(c.name, term) ||
    (c.description.Some? && ContainsIgnoreCase(c.description.value, term)) ||
    (c.instructorName.Some? && ContainsIgnoreCase(c.instructorName.value, term))
  }

  function CourseSearching(term: string): Course -> bool {
    (c: Course) => CourseSearchHit(c, term)
  }

  function OfStyle(d: DanceStyle): Course -> bool {
    (c: Course) => c.danceStyle == d
  }

  function AtLevel(l: DifficultyLevel): Course -> bool {
    (c: Course) => c.difficultyLevel == l
  }

  function ActiveIs(b: bool): Course -> bool {
    (c: Course) => c.isActive == b
  }

  function StartsFrom(t: DateTime): Course -> bool {
    (c: Course) => c.startDate >= t
  }

  function StartsUntil(t: DateTime): Course -> bool {
    (c: Course) => c.startDate <= t
  }

  function TaughtBy(id: Guid): Course -> bool {
    (c: Course) => c.instructorId == Some(id)
  }

  function WithSpots(): Course -> bool {
    (c: Course) => c.enrollmentCount < c.capacity
  }

  function EndsAfter(now: DateTime): Course -> bool {
    (c: Course) => c.endDate > now
  }

  /** The `Where` clauses `GetFilteredAsync` adds, in the order it adds them; `now` is the query's clock reading. */
  function CourseFilters(f: CourseFilterParams, now: DateTime): seq<Course -> bool> {
    KindFilters(f) + RangeFilters(f) + AvailabilityFilters(f, now)
  }

  /** The search and the three attribute clauses. */
  function KindFilters(f: CourseFilterParams): seq<Course -> bool> {
    (if !IsNullOrWhiteSpace(f.searchTerm) then [CourseSearching(f.searchTerm.value)] else []) +
    (if f.danceStyle.Some? then [OfStyle(f.danceStyle.value)] else []) +
    (if f.difficultyLevel.Some? then [AtLevel(f.difficultyLevel.value)] else []) +
    (if f.isActive.Some? then [ActiveIs(f.isActive.value)] else [])
  }

  /** The start-date bounds and the instructor. */
  function RangeFilters(f: CourseFilterParams): seq<Course -> bool> {
    (if f.startDateFrom.Some? then [StartsFrom(f.startDateFrom.value)] else []) +
    (if f.startDateTo.Some? then [StartsUntil(f.startDateTo.value)] else []) +
    (if f.instructorId.Some? then [TaughtBy(f.instructorId.value)] else [])
  }

  /** The two flags, each adding its clause only when it is `true`. */
  function AvailabilityFilters(f: CourseFilterParams, now: DateTime): seq<Course -> bool> {
    (if f.hasAvailableSpots == Some(true) then [WithSpots()] else []) +
    (if f.futureCoursesOnly == Some(true) then [EndsAfter(now)] else [])
  }

  /** What the parameters ask of a course: every supplied criterion; `false` for the two flags asks nothing. */
  predicate CourseMatchesFilter(f: CourseFilterParams, now: DateTime, c: Course) {
    (!IsNullOrWhiteSpace(f.searchTerm) ==> CourseSearchHit(c, f.searchTerm.value)) &&
    (f.danceStyle.Some? ==> c.danceStyle == f.danceStyle.value) &&
    (f.difficultyLevel.Some? ==> c.difficultyLevel == f.difficultyLevel.value) &&
    (f.isActive.Some? ==> c.isActive == f.isActive.value) &&
    (f.startDateFrom.Some? ==> f.startDateFrom.value <= c.startDate) &&
    (f.startDateTo.Some? ==> c.startDate <= f.startDateTo.value) &&
    (f.instructorId.Some? ==> c.instructorId == f.instructorId) &&
    (f.hasAvailableSpots == Some(true) ==> !c.IsFull()) &&
    (f.futureCoursesOnly == Some(true) ==> now < c.endDate)
  }

  function CourseMatching(f: CourseFilterParams, now: DateTime): Course -> bool {
    (c: Course) => CourseMatchesFilter(f, now, c)
  }

  lemma KindFiltersMeanMatch(f: CourseFilterParams, c: Course)
    ensures AllOf(KindFilters(f))(c) <==>
      (!IsNullOrWhiteSpace(f.searchTerm) ==> CourseSearchHit(c, f.searchTerm.value)) &&
      (f.danceStyle.Some? ==> c.danceStyle == f.danceStyle.value) &&
      (f.difficultyLevel.Some? ==> c.difficultyLevel == f.difficultyLevel.value) &&
      (f.isActive.Some? ==> c.isActive == f.isActive.value)
  {
    var p1 := if !IsNullOrWhiteSpace(f.searchTerm) then [CourseSearching(f.searchTerm.value)] else [];
    var p2 := if f.danceStyle.Some? then [OfStyle(f.danceStyle.value)] else [];
    var p3 := if f.difficultyLevel.Some? then [AtLevel(f.difficultyLevel.value)] else [];
    var p4 := if f.isActive.Some? then [ActiveIs(f.isActive.value)] else [];
    AllOfConcat(p1, p2, c);
    AllOfConcat(p1 + p2, p3, c);
    AllOfConcat(p1 + p2 + p3, p4, c);
    if !IsNullOrWhiteSpace(f.searchTerm) { AllOfOptional(true, CourseSearching(f.searchTerm.value), c); }
    if f.danceStyle.Some? { AllOfOptional(true, OfStyle(f.danceStyle.value), c); }
    if f.difficultyLevel.Some? { AllOfOptional(true, AtLevel(f.difficultyLevel.value), c); }
    if f.isActive.Some? { AllOfOptional(true, ActiveIs(f.isActive.value), c); }
  }

  lemma RangeFiltersMeanMatch(f: CourseFilterParams, c: Course)
    ensures AllOf(RangeFilters(f))(c) <==>
      (f.startDateFrom.Some? ==> f.startDateFrom.value <= c.startDate) &&
      (f.startDateTo.Some? ==> c.startDate <= f.startDateTo.value) &&
      (f.instructorId.Some? ==> c.instructorId == f.instructorId)
  {
    var p1 := if f.startDateFrom.Some? then [StartsFrom(f.startDateFrom.value)] else [];
    var p2 := if f.startDateTo.Some? then [StartsUntil(f.startDateTo.value)] else [];
    var p3 := if f.instructorId.Some? then [TaughtBy(f.instructorId.value)] else [];
    AllOfConcat(p1, p2, c);
    AllOfConcat(p1 + p2, p3, c);
    if f.startDateFrom.Some? { AllOfOptional(true, StartsFrom(f.startDateFrom.value), c); }
    if f.startDateTo.Some? { AllOfOptional(true, StartsUntil(f.startDateTo.value), c); }
    if f.instructorId.Some? { AllOfOptional(true, TaughtBy(f.instructorId.value), c); }
  }

  lemma AvailabilityFiltersMeanMatch(f: CourseFilterParams, now: DateTime, c: Course)
    ensures AllOf(AvailabilityFilters(f, now))(c) <==>
      (f.hasAvailableSpots == Some(true) ==> !c.IsFull()) &&
      (f.futureCoursesOnly == Some(true) ==> now < c.endDate)
  {
    var p1 := if f.hasAvailableSpots == Some(true) then [WithSpots()] else [];
    var p2 := if f.futureCoursesOnly == Some(true) then [EndsAfter(now)] else [];
    AllOfConcat(p1, p2, c);
    AllOfOptional(f.hasAvailableSpots == Some(true), WithSpots(), c);
    AllOfOptional(f.futureCoursesOnly == Some(true), EndsAfter(now), c);
  }

  /** A course passes the chain of clauses exactly when it meets every supplied criterion. */
  lemma CourseFiltersMeanMatch(f: CourseFilterParams, now: DateTime, c: Course)
    ensures AllOf(CourseFilters(f, now))(c) <==> CourseMatchesFilter(f, now, c)
  {
    AllOfConcat(KindFilters(f), RangeFilters(f), c);
    AllOfConcat(KindFilters(f) + RangeFilters(f), AvailabilityFilters(f, now), c);
    KindFiltersMeanMatch(f, c);
    RangeFiltersMeanMatch(f, c);
    AvailabilityFiltersMeanMatch(f, now, c);
  }

  /** The chain of clauses keeps exactly the courses that meet the criteria, in storage order. */
  lemma CourseChainIsMatching(s: CourseState, f: CourseFilterParams, now: DateTime)
    ensures WhereAll(s.courses, CourseFilters(f, now)) == Filter(s.courses, CourseMatching(f, now))
  {
    WhereAllIsConjunction(s.courses, CourseFilters(f, now));
    forall i | 0 <= i < |s.courses|
      ensures AllOf(CourseFilters(f, now))(s.courses[i]) == CourseMatching(f, now)(s.courses[i])
    {
      CourseFiltersMeanMatch(f, now, s.courses[i]);
    }
    FilterSame(s.courses, AllOf(CourseFilters(f, now)), CourseMatching(f, now));
  }

  /** The future-only flag also drops a course that ends at the very instant of the query, which has not ended. */
  lemma FutureOnlyBoundary(f: CourseFilterParams, c: Course)
    requires f.futureCoursesOnly == Some(true)
    ensures !CourseMatchesFilter(f, c.endDate, c)
    ensures !c.HasEnded(c.endDate)
    ensures forall now :: CourseMatchesFilter(f, now, c) ==> !c.HasEnded(now)
  {
  }

  function CourseStartDateOf(c: Course): int { c.startDate }

  /** The courses the filter keeps, earliest start first. */
  function FilteredCourses(s: CourseState, f: CourseFilterParams, now: DateTime): (r: seq<Course>)
    ensures Sorted(r, Ascending(CourseStartDateOf))
    ensures forall c :: c in r <==> c in s.courses && CourseMatchesFilter(f, now, c)
    ensures multiset(r) == multiset(Filter(s.courses, CourseMatching(f, now)))
    ensures |r| == Count(s.courses, CourseMatching(f, now))
  {
    CourseChainIsMatching(s, f, now);
    IntKeyPreorder(CourseStartDateOf);
    SortBy(WhereAll(s.courses, CourseFilters(f, now)), Ascending(CourseStartDateOf))
  }

  /** `GetFilteredAsync`: one page of the filtered courses, and how many courses the filter keeps. */
  function GetFiltered(s: CourseState, f: CourseFilterParams, now: DateTime): (r: (seq<Course>, int))
    ensures r.1 == Count(s.courses, CourseMatching(f, now)) == |FilteredCourses(s, f, now)|
    ensures forall c :: c in r.0 ==> c in s.courses && CourseMatchesFilter(f, now, c)
    ensures Sorted(r.0, Ascending(CourseStartDateOf))
    ensures |r.0| <= if f.pageSize <= 0 then 0 else f.pageSize
    ensures r.0 == PageOf(FilteredCourses(s, f, now), f.page, f.pageSize)
  {
    var ordered := FilteredCourses(s, f, now);
    PageOfSorted(ordered, f.page, f.pageSize, Ascending(CourseStartDateOf));
    (PageOf(ordered, f.page, f.pageSize), |ordered|)
  }

  /** With no criterion the query pages through every stored course. */
  lemma UnfilteredKeepsAll(s: CourseState, now: DateTime)
    ensures GetFiltered(s, DefaultCourseFilter(), now).1 == |s.courses|
  {
    FilterAll(s.courses, CourseMatching(DefaultCourseFilter(), now));
  }

  // ---- the name check ----

  function NamedAs(name: string): Course -> bool {
    (c: Course) => c.name == name
  }

  function OtherThan(id: Guid): Course -> bool {
    (c: Course) => c.id != id
  }

  /** `NameExistsAsync`: some course other than the excluded one carries exactly that name. */
  function NameExists(s: CourseState, name: string, excludeCourseId: Option<Guid>): (r: bool)
    ensures r <==> (!IsNullOrWhiteSpace(Some(name)) &&
      exists i :: 0 <= i < |s.courses| && s.courses[i].name == name &&
        (excludeCourseId.None? || s.courses[i].id != excludeCourseId.value))
  {
    if IsNullOrWhiteSpace(Some(name)) then false
    else
      var query := Filter(s.courses, NamedAs(name));
      var query' := if excludeCourseId.Some? then Filter(query, OtherThan(excludeCourseId.value)) else query;
      NonEmptyFilter(query, excludeCourseId, name, s.courses);
      |query'| > 0
  }

  lemma NonEmptyFilter(query: seq<Course>, excludeCourseId: Option<Guid>, name: string, courses: seq<Course>)
    requires query == Filter(courses, NamedAs(name))
    ensures (|if excludeCourseId.Some? then Filter(query, OtherThan(excludeCourseId.value)) else query| > 0) <==>
      exists i :: 0 <= i < |courses| && courses[i].name == name &&
        (excludeCourseId.None? || courses[i].id != excludeCourseId.value)
  {
    var q := if excludeCourseId.Some? then Filter(query, OtherThan(excludeCourseId.value)) else query;
    if |q| > 0 {
      assert q[0] in q;
      var i :| 0 <= i < |courses| && courses[i] == q[0];
    }
    if exists i :: 0 <= i < |courses| && courses[i].name == name &&
        (excludeCourseId.None? || courses[i].id != excludeCourseId.value) {
      var i :| 0 <= i < |courses| && courses[i].name == name &&
        (excludeCourseId.None? || courses[i].id != excludeCourseId.value);
      assert courses[i] in q;
    }
  }

  /** Excluding an id can only hide a match, and excluding an id no course carries hides none. */
  lemma NameExistsExclusion(s: CourseState, name: string, id: Guid)
    ensures NameExists(s, name, Some(id)) ==> NameExists(s, name, None)
    ensures CourseIndex(s, id).None? ==> NameExists(s, name, Some(id)) == NameExists(s, name, None)
  {
  }

  /** A course that is the only one with its name does not clash with itself. */
  lemma OwnNameIsFree(s: CourseState, k: nat)
    requires k < |s.courses|
    requires forall j :: 0 <= j < |s.courses| && j != k ==> s.courses[j].name != s.courses[k].name
    requires UniqueBy(s.courses, CourseKey)
    ensures !NameExists(s, s.courses[k].name, Some(s.courses[k].id))
  {
  }

  // ---- session writes ----

  /** `AddSessionAsync`: the row is appended. */
  function SessionAdded(s: CourseState, x: CourseSession): (r: CourseState)
    ensures r.sessions == s.sessions + [x]
    ensures r.courses == s.courses && r.enrollments == s.enrollments && r.attendances == s.attendances
  {
    s.(sessions := s.sessions + [x])
  }

  /** A session kept at its position, or moved behind new rows, is still found. */
  lemma SessionsPrefixKept(s: CourseState, t: CourseState)
    requires |s.sessions| <= |t.sessions|
    requires forall j :: 0 <= j < |s.sessions| ==> t.sessions[j] == s.sessions[j]
    ensures forall id :: SessionIndex(s, id).Some? ==> SessionIndex(t, id).Some?
  {
    forall id | SessionIndex(s, id).Some? ensures SessionIndex(t, id).Some? {
      var k := SessionIndex(s, id).value;
      assert t.sessions[k].id == id;
    }
  }

  /** A course kept at its position, or moved behind new rows, is still found. */
  lemma CoursesPrefixKept(s: CourseState, t: CourseState)
    requires |s.courses| <= |t.courses|
    requires forall j :: 0 <= j < |s.courses| ==> t.courses[j].id == s.courses[j].id
    ensures forall id :: CourseIndex(s, id).Some? ==> CourseIndex(t, id).Some?
  {
    forall id | CourseIndex(s, id).Some? ensures CourseIndex(t, id).Some? {
      var k := CourseIndex(s, id).value;
      assert t.courses[k].id == id;
    }
  }

  lemma SessionAddedForeignKeys(s: CourseState, x: CourseSession)
    requires ForeignKeys(s) && CourseIndex(s, x.courseId).Some?
    ensures ForeignKeys(SessionAdded(s, x))
  {
    var t := SessionAdded(s, x);
    SessionsPrefixKept(s, t);
    forall i | 0 <= i < |t.sessions| ensures CourseIndex(t, t.sessions[i].courseId).Some? {
      if i < |s.sessions| { assert t.sessions[i] == s.sessions[i]; }
    }
  }

  /** A session with a fresh id for a stored course keeps the store valid. */
  lemma SessionAddedValid(s: CourseState, x: CourseSession)
    requires Valid(s)
    requires SessionIndex(s, x.id).None?
    requires CourseIndex(s, x.courseId).Some?
    ensures Valid(SessionAdded(s, x))
    ensures FindSession(SessionAdded(s, x), x.id) == Some(x)
  {
    UniqueAppend(s.sessions, x, SessionKey);
    SessionAddedForeignKeys(s, x);
    FindSessionAt(SessionAdded(s, x), |s.sessions|);
  }

  /** `UpdateSessionAsync`: the stored row with the same id is replaced. */
  function SessionUpdated(s: CourseState, x: CourseSession): (r: CourseState)
    requires SessionIndex(s, x.id).Some?
    ensures r.sessions == s.sessions[SessionIndex(s, x.id).value := x]
    ensures r.courses == s.courses && r.enrollments == s.enrollments && r.attendances == s.attendances
  {
    s.(sessions := s.sessions[SessionIndex(s, x.id).value := x])
  }

  lemma SessionUpdatedForeignKeys(s: CourseState, x: CourseSession)
    requires ForeignKeys(s) && SessionIndex(s, x.id).Some? && CourseIndex(s, x.courseId).Some?
    ensures ForeignKeys(SessionUpdated(s, x))
  {
    var i := SessionIndex(s, x.id).value;
    var t := SessionUpdated(s, x);
    forall id | SessionIndex(s, id).Some? ensures SessionIndex(t, id).Some? {
      var k := SessionIndex(s, id).value;
      assert t.sessions[k].id == id;
    }
    forall j | 0 <= j < |t.sessions| ensures CourseIndex(t, t.sessions[j].courseId).Some? {
      if j != i { assert t.sessions[j] == s.sessions[j]; }
    }
  }

  /** Replacing a session by one for a stored course keeps the store valid. */
  lemma SessionUpdatedValid(s: CourseState, x: CourseSession)
    requires Valid(s) && SessionIndex(s, x.id).Some? && CourseIndex(s, x.courseId).Some?
    ensures Valid(SessionUpdated(s, x))
    ensures FindSession(SessionUpdated(s, x), x.id) == Some(x)
  {
    var i := SessionIndex(s, x.id).value;
    UniqueUpdate(s.sessions, i, x, SessionKey);
    SessionUpdatedForeignKeys(s, x);
    FindSessionAt(SessionUpdated(s, x), i);
  }

  /** `DeleteSessionAsync`: the row goes, and its attendance rows with it. */
  function SessionDeleted(s: CourseState, x: CourseSession): (r: CourseState)
    requires SessionIndex(s, x.id).Some?
    ensures r == WithoutSession(s, SessionIndex(s, x.id).value)
    ensures r.courses == s.courses && r.enrollments == s.enrollments
  {
    WithoutSession(s, SessionIndex(s, x.id).value)
  }

  /** Deleting a session keeps the store valid, and it is no longer found. */
  lemma SessionDeletedValid(s: CourseState, x: CourseSession)
    requires Valid(s) && SessionIndex(s, x.id).Some?
    ensures Valid(SessionDeleted(s, x))
    ensures FindSession(SessionDeleted(s, x), x.id).None?
    ensures forall a :: a in SessionDeleted(s, x).attendances <==> a in s.attendances && a.sessionId != x.id
  {
    var i := SessionIndex(s, x.id).value;
    WithoutSessionValid(s, i);
    var t := SessionDeleted(s, x);
    forall j | 0 <= j < |t.sessions| ensures t.sessions[j].id != x.id {
      var j' := if j < i then j else j + 1;
      assert t.sessions[j] == s.sessions[j'];
      IndexOfUniqueKey(s.sessions, SessionKey, j');
    }
  }

  // ---- course writes ----

  /** `AddAsync` on a course: the course, and the sessions attached to it, are inserted. */
  function CourseAdded(s: CourseState, c: Course, inline: seq<CourseSession>): (r: CourseState)
    ensures r.courses == s.courses + [c] && r.sessions == s.sessions + inline
    ensures r.enrollments == s.enrollments && r.attendances == s.attendances
  {
    s.(courses := s.courses + [c], sessions := s.sessions + inline)
  }

  lemma CourseAddedForeignKeys(s: CourseState, c: Course, inline: seq<CourseSession>)
    requires ForeignKeys(s)
    requires forall j :: 0 <= j < |inline| ==> inline[j].courseId == c.id
    ensures ForeignKeys(CourseAdded(s, c, inline))
  {
    var t := CourseAdded(s, c, inline);
    CoursesPrefixKept(s, t);
    SessionsPrefixKept(s, t);
    assert t.courses[|s.courses|] == c;
    assert CourseIndex(t, c.id).Some?;
    forall i | 0 <= i < |t.sessions| ensures CourseIndex(t, t.sessions[i].courseId).Some? {
      if i < |s.sessions| {
        assert t.sessions[i] == s.sessions[i];
      } else {
        assert t.sessions[i] == inline[i - |s.sessions|];
      }
    }
  }

  /** The new course has no rows, so a zero counter matches. */
  lemma CourseAddedCounts(s: CourseState, c: Course, inline: seq<CourseSession>)
    requires ForeignKeys(s) && CountsMatch(s)
    requires CourseIndex(s, c.id).None? && c.enrollmentCount == 0
    ensures CountsMatch(CourseAdded(s, c, inline))
  {
    forall i | 0 <= i < |s.enrollments| ensures !EnrolledIn(c.id)(s.enrollments[i]) {
      assert CourseIndex(s, s.enrollments[i].courseId).Some?;
    }
    FilterNone(s.enrollments, EnrolledIn(c.id));
  }

  /** A course with a fresh id, a zero counter and new sessions of its own keeps the store valid. */
  lemma CourseAddedValid(s: CourseState, c: Course, inline: seq<CourseSession>)
    requires Valid(s)
    requires CourseIndex(s, c.id).None? && c.enrollmentCount == 0
    requires UniqueBy(s.sessions + inline, SessionKey)
    requires forall j :: 0 <= j < |inline| ==> inline[j].courseId == c.id
    ensures Valid(CourseAdded(s, c, inline))
    ensures FindCourse(CourseAdded(s, c, inline), c.id) == Some(c)
  {
    UniqueAppend(s.courses, c, CourseKey);
    CourseAddedForeignKeys(s, c, inline);
    CourseAddedCounts(s, c, inline);
    FindCourseAt(CourseAdded(s, c, inline), |s.courses|);
  }

  /** `UpdateAsync` on a course: the stored row with the same id is replaced. */
  function CourseUpdated(s: CourseState, c: Course): (r: CourseState)
    requires CourseIndex(s, c.id).Some?
    ensures r.courses == s.courses[CourseIndex(s, c.id).value := c]
    ensures r.sessions == s.sessions && r.enrollments == s.enrollments && r.attendances == s.attendances
  {
    s.(courses := s.courses[CourseIndex(s, c.id).value := c])
  }

  /** Replacing a course by one with the same counter keeps the store valid. */
  lemma CourseUpdatedValid(s: CourseState, c: Course)
    requires Valid(s) && CourseIndex(s, c.id).Some?
    requires c.enrollmentCount == s.courses[CourseIndex(s, c.id).value].enrollmentCount
    ensures Valid(CourseUpdated(s, c))
    ensures FindCourse(CourseUpdated(s, c), c.id) == Some(c)
  {
    var k := CourseIndex(s, c.id).value;
    var t := CourseUpdated(s, c);
    UniqueUpdate(s.courses, k, c, CourseKey);
    SameCourseIds(s, t);
    FindCourseAt(t, k);
  }

  lemma SameCourseIds(s: CourseState, t: CourseState)
    requires |t.courses| == |s.courses|
    requires forall j :: 0 <= j < |s.courses| ==> t.courses[j].id == s.courses[j].id
    requires t.sessions == s.sessions && t.enrollments == s.enrollments && t.attendances == s.attendances
    requires forall j :: 0 <= j < |s.courses| ==> t.courses[j].enrollmentCount == s.courses[j].enrollmentCount
    ensures ForeignKeys(s) ==> ForeignKeys(t)
    ensures CountsMatch(s) ==> CountsMatch(t)
  {
    forall id | CourseIndex(s, id).Some? ensures CourseIndex(t, id).Some? {
      var k := CourseIndex(s, id).value;
      assert t.courses[k].id == id;
    }
  }

  /** `DeleteAsync` on a course: the row goes, with its sessions, their attendance rows and its enrollments. */
  function CourseDeleted(s: CourseState, c: Course): (r: CourseState)
    requires CourseIndex(s, c.id).Some?
    ensures r == WithoutCourse(s, CourseIndex(s, c.id).value)
  {
    WithoutCourse(s, CourseIndex(s, c.id).value)
  }

  /** Deleting a course keeps the store valid and leaves nothing that belongs to it. */
  lemma CourseDeletedValid(s: CourseState, c: Course)
    requires Valid(s) && CourseIndex(s, c.id).Some?
    ensures Valid(CourseDeleted(s, c))
    ensures FindCourse(CourseDeleted(s, c), c.id).None?
    ensures GetSessionsForCourse(CourseDeleted(s, c), c.id) == []
    ensures EnrollmentRows(CourseDeleted(s, c), c.id) == 0
  {
    var k := CourseIndex(s, c.id).value;
    WithoutCourseValid(s, k);
    var t := CourseDeleted(s, c);
    SessionsOfMissingCourse(t, c.id);
    FilterNone(t.enrollments, EnrolledIn(c.id));
  }

  // ---- the repository's writes on the context ----

  /** `AddSessionAsync` */
  method AddSession(db: CourseDb, x: CourseSession)
    modifies db
    ensures db.State() == SessionAdded(old(db.State()), x)
  {
    db.sessions := db.sessions + [x];
  }

  /** `UpdateSessionAsync` */
  method UpdateSession(db: CourseDb, x: CourseSession)
    requires SessionIndex(db.State(), x.id).Some?
    modifies db
    ensures db.State() == SessionUpdated(old(db.State()), x)
  {
    var i := SessionIndex(db.State(), x.id).value;
    db.sessions := db.sessions[i := x];
  }

  /** `DeleteSessionAsync`, with the database's cascade to the attendance rows. */
  method DeleteSession(db: CourseDb, x: CourseSession)
    requires SessionIndex(db.State(), x.id).Some?
    modifies db
    ensures db.State() == SessionDeleted(old(db.State()), x)
  {
    var i := SessionIndex(db.State(), x.id).value;
    db.attendances := Filter(db.attendances, NotOfSession(db.sessions[i].id));
    db.sessions := RemoveAt(db.sessions, i);
  }

  /** `AddAsync` on a course with its new sessions. */
  method AddCourse(db: CourseDb, c: Course, inline: seq<CourseSession>)
    modifies db
    ensures db.State() == CourseAdded(old(db.State()), c, inline)
  {
    db.courses := db.courses + [c];
    db.sessions := db.sessions + inline;
  }

  /** `UpdateAsync` on a course. */
  method UpdateCourse(db: CourseDb, c: Course)
    requires CourseIndex(db.State(), c.id).Some?
    modifies db
    ensures db.State() == CourseUpdated(old(db.State()), c)
  {
    var k := CourseIndex(db.State(), c.id).value;
    db.courses := db.courses[k := c];
  }

  /** `DeleteAsync` on a course, with the database's cascades. */
  method DeleteCourse(db: CourseDb, c: Course)
    requires CourseIndex(db.State(), c.id).Some?
    modifies db
    ensures db.State() == CourseDeleted(old(db.State()), c)
  {
    var k := CourseIndex(db.State(), c.id).value;
    var id := db.courses[k].id;
    db.attendances := Filter(db.attendances, NotOfCourseSession(db.sessions, id));
    db.enrollments := Filter(db.enrollments, NotEnrolledIn(id));
    db.sessions := Filter(db.sessions, NotInCourse(id));
    db.courses := RemoveAt(db.courses, k);
  }
}

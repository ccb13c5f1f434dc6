// The enrollment endpoints: reading one enrollment or a course's list, and the create,
// update and delete actions with the guards that protect each course's capacity.

module EnrollmentController {
  import opened Common
  import opened Seqs
  import opened BaseDto
  import opened CourseModel
  import opened EnrollmentDtos
  import opened CourseData
  import opened EnrollmentRepository

  /** `EnrollmentDto`: the row's columns, with the name of its course. */
  datatype EnrollmentDto = EnrollmentDto(row: CourseEnrollment, courseName: string)

  /** `enrollment.Course?.Name ?? string.Empty` */
  function CourseNameOf(s: CourseState, courseId: Guid): string {
    match FindCourse(s, courseId)
    case Some(c) => c.name
    case None => ""
  }

  /** `GetEnrollment` */
  function GetEnrollment(s: CourseState, id: Guid): (r: ActionResult<EnrollmentDto>)
    ensures r.NotFound? <==> forall j :: 0 <= j < |s.enrollments| ==> s.enrollments[j].id != id
    ensures r.NotFound? ==> r.reason == EnrollmentNotFound
    ensures r.Ok? ==> r.value.row in s.enrollments && r.value.row.id == id
    ensures r.NotFound? || r.Ok?
  {
    match GetById(s, id)
    case None => NotFound(EnrollmentNotFound)
    case Some(e) => Ok(EnrollmentDto(e, CourseNameOf(s, e.courseId)))
  }

  /** The rows a list of enrollment DTOs shows. */
  function RowsOf(ds: seq<EnrollmentDto>): seq<CourseEnrollment> {
    seq(|ds|, i requires 0 <= i < |ds| => ds[i].row)
  }

  /** The DTOs of a list of rows, each with its course's name (empty when the course is gone). */
  function ToDtos(s: CourseState, rows: seq<CourseEnrollment>): (r: seq<EnrollmentDto>)
    ensures RowsOf(r) == rows
    ensures forall i :: 0 <= i < |r| ==> r[i].courseName == CourseNameOf(s, rows[i].courseId)
  {
    var r := seq(|rows|, i requires 0 <= i < |rows| => EnrollmentDto(rows[i], CourseNameOf(s, rows[i].courseId)));
    assert forall i :: 0 <= i < |rows| ==> RowsOf(r)[i] == rows[i];
    r
  }

  /** `GetEnrollments`: the query's page and total, with the request's paging. */
  function GetEnrollments(s: CourseState, f: EnrollmentFilterParams): (r: PagedResponse<EnrollmentDto>)
    ensures r.page == f.page && r.pageSize == f.pageSize
    ensures (RowsOf(r.items), r.totalCount) == GetFiltered(s, f)
  {
    var q := GetFiltered(s, f);
    PagedResponse(f.page, f.pageSize, q.1, ToDtos(s, q.0))
  }

  /** Every listed row is stored and matches the filter, newest enrollment first within a page size, and the total counts every match. */
  lemma GetEnrollmentsMatches(s: CourseState, f: EnrollmentFilterParams)
    ensures var r := GetEnrollments(s, f);
      r.totalCount == Count(s.enrollments, Matching(f)) &&
      |r.items| <= (if f.pageSize <= 0 then 0 else f.pageSize) &&
      (forall e :: e in RowsOf(r.items) ==> e in s.enrollments && MatchesFilter(f, e)) &&
      Sorted(RowsOf(r.items), Descending(EnrollmentDateOf))
  {
    var r := GetEnrollments(s, f);
    assert |r.items| == |RowsOf(r.items)|;
  }

  /** `GetDancerEnrollments`: the dancer's rows, latest course start first; never NotFound. */
  function GetDancerEnrollments(s: CourseState, dancerId: Guid): (r: ActionResult<seq<EnrollmentDto>>)
    ensures r.Ok? && RowsOf(r.value) == GetEnrollmentsForDancer(s, dancerId)
  {
    Ok(ToDtos(s, GetEnrollmentsForDancer(s, dancerId)))
  }

  /** Where the foreign keys hold, the list shows exactly the dancer's rows. */
  lemma DancerEnrollmentsListed(s: CourseState, dancerId: Guid)
    requires ForeignKeys(s)
    ensures forall e :: e in RowsOf(GetDancerEnrollments(s, dancerId).value) <==> e in s.enrollments && e.dancerId == dancerId
  {
    forall e | e in s.enrollments && e.dancerId == dancerId
      ensures CourseIndex(s, e.courseId).Some?
    {
      var i :| 0 <= i < |s.enrollments| && s.enrollments[i] == e;
    }
  }

  /** `GetCourseEnrollments`: the course's list, or NotFound when the course is missing. */
  function GetCourseEnrollments(s: CourseState, courseId: Guid): (r: ActionResult<seq<EnrollmentDto>>)
    ensures r.NotFound? <==> FindCourse(s, courseId).None?
    ensures r.Ok? ==> |r.value| == EnrollmentRows(s, courseId)
    ensures r.Ok? ==> forall i :: 0 <= i < |r.value| ==>
      r.value[i].row in s.enrollments && r.value[i].row.courseId == courseId &&
      r.value[i].courseName == FindCourse(s, courseId).value.name
    ensures r.Ok? ==> RowsOf(r.value) == GetEnrollmentsForCourse(s, courseId)
    ensures r.Ok? ==> Sorted(RowsOf(r.value), ByString(DancerNameOf))
    ensures r.Ok? ==> multiset(RowsOf(r.value)) == multiset(Filter(s.enrollments, EnrolledIn(courseId)))
    ensures r.NotFound? || r.Ok?
  {
    match FindCourse(s, courseId)
    case None => NotFound(CourseNotFound)
    case Some(c) =>
      var rows := GetEnrollmentsForCourse(s, courseId);
      var ds := seq(|rows|, i requires 0 <= i < |rows| => EnrollmentDto(rows[i], c.name));
      assert forall i :: 0 <= i < |rows| ==> RowsOf(ds)[i] == rows[i];
      Ok(ds)
  }

  // ---- CreateEnrollment ----

  /** The row `CreateEnrollment` builds from the request. */
  function NewEnrollment(id: Guid, courseId: Guid, d: CreateEnrollmentDto, now: DateTime, user: Option<string>): CourseEnrollment {
    CourseEnrollment(id, courseId, d.dancerId, d.dancerName, d.dancerEmail, now,
                     d.status, d.paymentStatus, d.amountPaid, d.notes, NewAudit(now, user))
  }

  /** `CreateEnrollment`: NotFound, full, already enrolled, in that order; otherwise the row is added. */
  function CreateEnrollmentStep(s: CourseState, courseId: Guid, d: CreateEnrollmentDto,
                                newId: Guid, now: DateTime, user: Option<string>): (r: Step<CourseState, EnrollmentDto>)
    ensures FindCourse(s, courseId).None? ==> r == Step(s, NotFound(CourseNotFound))
    ensures FindCourse(s, courseId).Some? && FindCourse(s, courseId).value.IsFull() ==>
              r == Step(s, BadRequest(CourseFull))
    ensures FindCourse(s, courseId).Some? && !FindCourse(s, courseId).value.IsFull() && IsEnrolled(s, courseId, d.dancerId) ==>
              r == Step(s, BadRequest(AlreadyEnrolled))
    ensures r.result.IsSuccess() <==>
              FindCourse(s, courseId).Some? && !FindCourse(s, courseId).value.IsFull() && !IsEnrolled(s, courseId, d.dancerId)
    ensures r.result.IsSuccess() ==>
              r.state == Added(s, NewEnrollment(newId, courseId, d, now, user)) &&
              r.result == Created(EnrollmentDto(NewEnrollment(newId, courseId, d, now, user), FindCourse(s, courseId).value.name))
    ensures !r.result.IsSuccess() ==> r.state == s
  {
    match FindCourse(s, courseId)
    case None => Step(s, NotFound(CourseNotFound))
    case Some(course) =>
      if course.IsFull() then Step(s, BadRequest(CourseFull))
      else if IsEnrolled(s, courseId, d.dancerId) then Step(s, BadRequest(AlreadyEnrolled))
      else
        var e := NewEnrollment(newId, courseId, d, now, user);
        Step(Added(s, e), Created(EnrollmentDto(e, course.name)))
  }

  /** The created row carries the request's dancer, status, payment and notes, stamped with the clock and user. */
  lemma CreateEnrollmentStores(s: CourseState, courseId: Guid, d: CreateEnrollmentDto, newId: Guid, now: DateTime, user: Option<string>)
    requires CreateEnrollmentStep(s, courseId, d, newId, now, user).result.IsSuccess()
    ensures var e := CreateEnrollmentStep(s, courseId, d, newId, now, user).result.value.row;
      e.id == newId && e.courseId == courseId && e.dancerId == d.dancerId && e.dancerName == d.dancerName &&
      e.dancerEmail == d.dancerEmail && e.status == d.status && e.paymentStatus == d.paymentStatus &&
      e.amountPaid == d.amountPaid && e.notes == d.notes && e.enrollmentDate == now &&
      e.audit.createdBy == Some(Actor(user)) &&
      CreateEnrollmentStep(s, courseId, d, newId, now, user).state.enrollments == s.enrollments + [e]
  {
  }

  /** A create with a fresh id keeps the store valid. */
  lemma CreateEnrollmentValid(s: CourseState, courseId: Guid, d: CreateEnrollmentDto, newId: Guid, now: DateTime, user: Option<string>)
    requires Valid(s) && EnrollmentIndex(s, newId).None?
    ensures Valid(CreateEnrollmentStep(s, courseId, d, newId, now, user).state)
  {
    var r := CreateEnrollmentStep(s, courseId, d, newId, now, user);
    if r.result.IsSuccess() {
      var e := NewEnrollment(newId, courseId, d, now, user);
      assert CourseIndex(s, courseId).Some?;
      AddedValid(s, e);
    }
  }

  /** A successful create adds one row and one to the counter, which then still fits the capacity. */
  lemma CreateEnrollmentCapacity(s: CourseState, courseId: Guid, d: CreateEnrollmentDto, newId: Guid, now: DateTime, user: Option<string>)
    requires Valid(s)
    requires CreateEnrollmentStep(s, courseId, d, newId, now, user).result.IsSuccess()
    ensures var t := CreateEnrollmentStep(s, courseId, d, newId, now, user).state;
      FindCourse(t, courseId).Some? &&
      FindCourse(t, courseId).value.enrollmentCount == FindCourse(s, courseId).value.enrollmentCount + 1 &&
      FindCourse(t, courseId).value.enrollmentCount <= FindCourse(t, courseId).value.capacity &&
      EnrollmentRows(t, courseId) == EnrollmentRows(s, courseId) + 1 &&
      IsEnrolled(t, courseId, d.dancerId)
  {
    var e := NewEnrollment(newId, courseId, d, now, user);
    var t := Added(s, e);
    var k := CourseIndex(s, courseId).value;
    AddedCounter(s, e);
    CourseIdsKept(s, t);
    IndexOfUniqueKey(t.courses, CourseKey, k);
    CountConcat(s.enrollments, [e], EnrolledIn(courseId));
    assert Filter([e], EnrolledIn(courseId)) == [e];
    assert EnrollmentPair(t.enrollments[|s.enrollments|]) == (courseId, d.dancerId);
  }

  /** On a full course every request is refused as full, whoever the dancer and whether or not already enrolled. */
  lemma FullCourseRefusesEveryone(s: CourseState, courseId: Guid, newId: Guid, now: DateTime, user: Option<string>)
    requires FindCourse(s, courseId).Some? && FindCourse(s, courseId).value.IsFull()
    ensures forall d: CreateEnrollmentDto :: CreateEnrollmentStep(s, courseId, d, newId, now, user) == Step(s, BadRequest(CourseFull))
  {
  }

  // ---- UpdateEnrollment ----

  /** The partial update of `UpdateEnrollment`: each supplied field replaces the stored one. */
  function ApplyEnrollmentUpdate(e: CourseEnrollment, d: UpdateEnrollmentDto, now: DateTime, user: Option<string>): (r: CourseEnrollment)
    ensures r.id == e.id && r.courseId == e.courseId && r.dancerId == e.dancerId
    ensures r.dancerName == e.dancerName && r.dancerEmail == e.dancerEmail && r.enrollmentDate == e.enrollmentDate
    ensures r.status == (if d.status.Some? then d.status.value else e.status)
    ensures r.paymentStatus == (if d.paymentStatus.Some? then d.paymentStatus.value else e.paymentStatus)
    ensures r.amountPaid == (if d.amountPaid.Some? then d.amountPaid.value else e.amountPaid)
    ensures r.notes == (if d.notes.Some? then d.notes else e.notes)
    ensures r.audit == Touch(e.audit, now, user)
  {
    var status := if d.status.Some? then d.status.value else e.status;
    var payment := if d.paymentStatus.Some? then d.paymentStatus.value else e.paymentStatus;
    var amount := if d.amountPaid.Some? then d.amountPaid.value else e.amountPaid;
    var notes := if d.notes.Some? then d.notes else e.notes;
    e.(status := status, paymentStatus := payment, amountPaid := amount, notes := notes,
       audit := Touch(e.audit, now, user))
  }

  /** Sending the same update twice at the same instant leaves the row as one update did. */
  lemma EnrollmentUpdateIdempotent(e: CourseEnrollment, d: UpdateEnrollmentDto, now: DateTime, user: Option<string>)
    ensures ApplyEnrollmentUpdate(ApplyEnrollmentUpdate(e, d, now, user), d, now, user) == ApplyEnrollmentUpdate(e, d, now, user)
  {
  }

  /** An update with no field set changes only the modification stamp. */
  lemma EmptyEnrollmentUpdate(e: CourseEnrollment, now: DateTime, user: Option<string>)
    ensures ApplyEnrollmentUpdate(e, UpdateEnrollmentDto(None, None, None, None), now, user) == e.(audit := Touch(e.audit, now, user))
  {
  }

  /** `UpdateEnrollment` */
  function UpdateEnrollmentStep(s: CourseState, id: Guid, d: UpdateEnrollmentDto, now: DateTime, user: Option<string>): (r: Step<CourseState, EnrollmentDto>)
    ensures GetById(s, id).None? ==> r == Step(s, NotFound(EnrollmentNotFound))
    ensures GetById(s, id).Some? ==>
      var e := ApplyEnrollmentUpdate(GetById(s, id).value, d, now, user);
      r.state == Updated(s, e) && r.result == Ok(EnrollmentDto(e, CourseNameOf(s, e.courseId)))
  {
    match GetById(s, id)
    case None => Step(s, NotFound(EnrollmentNotFound))
    case Some(stored) =>
      var e := ApplyEnrollmentUpdate(stored, d, now, user);
      Step(Updated(s, e), Ok(EnrollmentDto(e, CourseNameOf(s, e.courseId))))
  }

  /** An update keeps the store valid, every counter, and who is enrolled where, whatever status it sets. */
  lemma UpdateEnrollmentKeepsLedger(s: CourseState, id: Guid, d: UpdateEnrollmentDto, now: DateTime, user: Option<string>)
    requires Valid(s)
    ensures Valid(UpdateEnrollmentStep(s, id, d, now, user).state)
    ensures UpdateEnrollmentStep(s, id, d, now, user).state.courses == s.courses
    ensures forall c, x :: IsEnrolled(UpdateEnrollmentStep(s, id, d, now, user).state, c, x) == IsEnrolled(s, c, x)
  {
    if GetById(s, id).Some? {
      UpdatedValid(s, ApplyEnrollmentUpdate(GetById(s, id).value, d, now, user));
    }
  }

  /** Once a dancer has been enrolled, a second request for the same course is refused, even after the first row's status changed. */
  lemma SecondCreateRefused(s: CourseState, courseId: Guid, d1: CreateEnrollmentDto, d2: CreateEnrollmentDto,
                            id1: Guid, id2: Guid, u: UpdateEnrollmentDto, now: DateTime, user: Option<string>)
    requires Valid(s) && EnrollmentIndex(s, id1).None?
    requires CreateEnrollmentStep(s, courseId, d1, id1, now, user).result.IsSuccess()
    requires d2.dancerId == d1.dancerId
    ensures var t := UpdateEnrollmentStep(CreateEnrollmentStep(s, courseId, d1, id1, now, user).state, id1, u, now, user).state;
      !CreateEnrollmentStep(t, courseId, d2, id2, now, user).result.IsSuccess() &&
      CreateEnrollmentStep(t, courseId, d2, id2, now, user).state == t
  {
    var t0 := CreateEnrollmentStep(s, courseId, d1, id1, now, user).state;
    CreateEnrollmentValid(s, courseId, d1, id1, now, user);
    CreateEnrollmentCapacity(s, courseId, d1, id1, now, user);
    UpdateEnrollmentKeepsLedger(t0, id1, u, now, user);
  }

  // ---- DeleteEnrollment ----

  /** `DeleteEnrollment` */
  function DeleteEnrollmentStep(s: CourseState, id: Guid): (r: Step<CourseState, bool>)
    ensures GetById(s, id).None? ==> r == Step(s, NotFound(EnrollmentNotFound))
    ensures GetById(s, id).Some? ==> r == Step(Deleted(s, GetById(s, id).value), Ok(true))
  {
    match GetById(s, id)
    case None => Step(s, NotFound(EnrollmentNotFound))
    case Some(e) => Step(Deleted(s, e), Ok(true))
  }

  /** Deleting a stored enrollment keeps the store valid, takes one off its course's counter and frees the pair. */
  lemma DeleteEnrollmentFrees(s: CourseState, id: Guid)
    requires Valid(s) && GetById(s, id).Some?
    ensures var e := GetById(s, id).value; var t := DeleteEnrollmentStep(s, id).state;
      Valid(t) && GetById(t, id).None? && !IsEnrolled(t, e.courseId, e.dancerId) &&
      FindCourse(t, e.courseId).Some? &&
      FindCourse(t, e.courseId).value.enrollmentCount == FindCourse(s, e.courseId).value.enrollmentCount - 1
  {
    var e := GetById(s, id).value;
    DeletedValid(s, e);
    DeletedRowGone(s, e);
    DeletedDecrements(s, e);
  }

  /** After the delete neither the id nor the `(course, dancer)` pair of the row is stored. */
  lemma DeletedRowGone(s: CourseState, e: CourseEnrollment)
    requires KeysUnique(s) && EnrollmentIndex(s, e.id).Some? && s.enrollments[EnrollmentIndex(s, e.id).value] == e
    ensures GetById(Deleted(s, e), e.id).None?
    ensures !IsEnrolled(Deleted(s, e), e.courseId, e.dancerId)
  {
    var m := EnrollmentIndex(s, e.id).value;
    var t := Deleted(s, e);
    forall j | 0 <= j < |t.enrollments|
      ensures t.enrollments[j].id != e.id && EnrollmentPair(t.enrollments[j]) != EnrollmentPair(e)
    {
      var j' := if j < m then j else j + 1;
      assert t.enrollments[j] == s.enrollments[j'];
      assert j' != m;
    }
  }

  /** A stored row's course has a positive counter, so the delete takes exactly one off it. */
  lemma DeletedDecrements(s: CourseState, e: CourseEnrollment)
    requires Valid(s) && EnrollmentIndex(s, e.id).Some? && s.enrollments[EnrollmentIndex(s, e.id).value] == e
    ensures FindCourse(Deleted(s, e), e.courseId).Some?
    ensures FindCourse(Deleted(s, e), e.courseId).value.enrollmentCount == FindCourse(s, e.courseId).value.enrollmentCount - 1
  {
    var t := Deleted(s, e);
    DeletedCounter(s, e);
    var k := CourseIndex(s, e.courseId).value;
    IndexOfUniqueKey(s.courses, CourseKey, k);
    CourseIdsKept(s, t);
    IndexOfUniqueKey(t.courses, CourseKey, k);
    assert e in Filter(s.enrollments, EnrolledIn(e.courseId));
    assert s.courses[k].enrollmentCount > 0;
  }

  // ---- the actions on the context ----

  /** `CreateEnrollment` */
  method CreateEnrollment(db: CourseDb, courseId: Guid, d: CreateEnrollmentDto, newId: Guid, now: DateTime, user: Option<string>)
    returns (result: ActionResult<EnrollmentDto>)
    modifies db
    ensures Step(db.State(), result) == CreateEnrollmentStep(old(db.State()), courseId, d, newId, now, user)
  {
    var course := FindCourse(db.State(), courseId);
    if course.None? {
      return NotFound(CourseNotFound);
    }
    if course.value.IsFull() {
      return BadRequest(CourseFull);
    }
    if IsEnrolled(db.State(), courseId, d.dancerId) {
      return BadRequest(AlreadyEnrolled);
    }
    var e := NewEnrollment(newId, courseId, d, now, user);
    Add(db, e);
    return Created(EnrollmentDto(e, course.value.name));
  }

  /** `UpdateEnrollment`: the supplied fields are assigned one by one, then the row is saved. */
  method UpdateEnrollment(db: CourseDb, id: Guid, d: UpdateEnrollmentDto, now: DateTime, user: Option<string>)
    returns (result: ActionResult<EnrollmentDto>)
    modifies db
    ensures Step(db.State(), result) == UpdateEnrollmentStep(old(db.State()), id, d, now, user)
  {
    var found := GetById(db.State(), id);
    if found.None? {
      return NotFound(EnrollmentNotFound);
    }
    var e := found.value;
    if d.status.Some? {
      e := e.(status := d.status.value);
    }
    if d.paymentStatus.Some? {
      e := e.(paymentStatus := d.paymentStatus.value);
    }
    if d.amountPaid.Some? {
      e := e.(amountPaid := d.amountPaid.value);
    }
    if d.notes.Some? {
      e := e.(notes := d.notes);
    }
    e := e.(audit := Touch(e.audit, now, user));
    Update(db, e);
    return Ok(EnrollmentDto(e, CourseNameOf(db.State(), e.courseId)));
  }

  /** `DeleteEnrollment` */
  method DeleteEnrollment(db: CourseDb, id: Guid) returns (result: ActionResult<bool>)
    modifies db
    ensures Step(db.State(), result) == DeleteEnrollmentStep(old(db.State()), id)
  {
    var found := GetById(db.State(), id);
    if found.None? {
      return NotFound(EnrollmentNotFound);
    }
    Delete(db, found.value);
    return Ok(true);
  }
}

// The request bodies and query parameters of the enrollment and attendance endpoints.

module EnrollmentDtos {
  import opened Common
  import opened CourseModel
  import opened Annotations

  datatype CreateEnrollmentDto = CreateEnrollmentDto(
    dancerId: Guid,
    dancerName: string,
    dancerEmail: Option<string>,
    status: EnrollmentStatus,
    paymentStatus: PaymentStatus,
    amountPaid: real,
    notes: Option<string>)
  {
    /** The annotations other than `[EmailAddress]`. */
    predicate Valid() {
      RequiredText(dancerName) && MaxLengthText(dancerName, 200) && MaxLength(dancerEmail, 255) &&
      0.0 <= amountPaid <= 10000.0 && MaxLength(notes, 500)
    }
  }

  /** A request body naming only the dancer: active, payment pending, nothing paid. */
  function DefaultCreateEnrollment(dancerId: Guid, dancerName: string): (d: CreateEnrollmentDto)
    ensures d.status == Active && d.paymentStatus == Pending && d.amountPaid == 0.0
    ensures d.dancerId == dancerId && d.dancerName == dancerName
    ensures RequiredText(dancerName) && MaxLengthText(dancerName, 200) ==> d.Valid()
  {
    CreateEnrollmentDto(dancerId, dancerName, None, Active, Pending, 0.0, None)
  }

  datatype UpdateEnrollmentDto = UpdateEnrollmentDto(
    status: Option<EnrollmentStatus>,
    paymentStatus: Option<PaymentStatus>,
    amountPaid: Option<real>,
    notes: Option<string>)
  {
    predicate Valid() {
      (amountPaid.None? || 0.0 <= amountPaid.value <= 10000.0) && MaxLength(notes, 500)
    }
  }

  datatype UpdateAttendanceDto = UpdateAttendanceDto(status: AttendanceStatus, notes: Option<string>)
  {
    predicate Valid() {
      MaxLength(notes, 500)
    }
  }

  datatype EnrollmentFilterParams = EnrollmentFilterParams(
    courseId: Option<Guid>,
    dancerId: Option<Guid>,
    status: Option<EnrollmentStatus>,
    paymentStatus: Option<PaymentStatus>,
    enrollmentDateFrom: Option<DateTime>,
    enrollmentDateTo: Option<DateTime>,
    searchTerm: Option<string>,
    page: int,
    pageSize: int)
  {
    predicate Valid() {
      1 <= page <= IntMax && 1 <= pageSize <= 100
    }
  }

  /** The parameters of a request that sets none: page 1 of 20, no filter. */
  function DefaultEnrollmentFilter(): (f: EnrollmentFilterParams)
    ensures f.Valid() && f.page == 1 && f.pageSize == 20
  {
    EnrollmentFilterParams(None, None, None, None, None, None, None, 1, 20)
  }
}

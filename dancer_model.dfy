// The Dancer service's entities: a dancer with its personal data and the two derived
// properties `FullName` and `Age`, and the per-dancer style entries.

module DancerModel {
  import opened Common

  /** `Gender` */
  datatype Gender = NotSpecified | Male | Female | NonBinary | Other

  /** `ExperienceLevel`; the filter compares levels by their underlying numbers. */
  datatype ExperienceLevel = Beginner | Intermediate | Advanced | Professional | Instructor
  {
    function Value(): int {
      match this
      case Beginner => 0
      case Intermediate => 1
      case Advanced => 2
      case Professional => 3
      case Instructor => 4
    }
  }

  /** The enum order is a total order that tells the levels apart. */
  lemma ExperienceOrderTotal(a: ExperienceLevel, b: ExperienceLevel)
    ensures a.Value() == b.Value() <==> a == b
    ensures a.Value() <= b.Value() || b.Value() <= a.Value()
    ensures ExperienceLevel.Beginner.Value() <= a.Value() <= ExperienceLevel.Instructor.Value()
  {
  }

  /** The Dancer service's own `DanceStyle`, numbered as the Course service's. */
  datatype DanceStyle =
    | Ballet | Contemporary | Jazz | HipHop | Tap | Ballroom | Latin
    | Salsa | Breakdance | Folk | Modern | Swing | Lyrical | Other
  {
    function Value(): int {
      match this
      case Ballet => 0
      case Contemporary => 1
      case Jazz => 2
      case HipHop => 3
      case Tap => 4
      case Ballroom => 5
      case Latin => 6
      case Salsa => 7
      case Breakdance => 8
      case Folk => 9
      case Modern => 10
      case Swing => 11
      case Lyrical => 12
      case Other => 99
    }
  }

  /** `ProficiencyLevel` */
  datatype ProficiencyLevel = Beginner | Intermediate | Advanced | Expert

  /** `Dancer`; the `DanceStyles` collection is the rows of the style table that point at it. */
  datatype Dancer = Dancer(
    id: Guid,
    firstName: string,
    lastName: string,
    email: Option<string>,
    phoneNumber: Option<string>,
    dateOfBirth: Option<DateTime>,
    gender: Gender,
    heightCm: Option<int>,
    weightKg: Option<int>,
    experienceLevel: ExperienceLevel,
    emergencyContactName: Option<string>,
    emergencyContactPhone: Option<string>,
    medicalNotes: Option<string>,
    notes: Option<string>,
    joinedDate: DateTime,
    isActive: bool,
    audit: Audit)
  {
    /** The first and last name joined by one space. */
    function FullName(): string {
      firstName + " " + lastName
    }

    /** The age on the date `now`: null exactly when the date of birth is. */
    function Age(now: DateTime): (r: Option<int>)
      ensures r.None? <==> dateOfBirth.None?
    {
      if dateOfBirth.Some? then Some(AgeYears(now - dateOfBirth.value)) else None
    }
  }

  /** The length of 365.25 days in ticks, times four. */
  const FourYearsTicks: int := 1461 * TicksPerDay

  /** `(int)(span.TotalDays / 365.25)`: the whole years of 365.25 days, truncated toward zero. */
  function AgeYears(span: int): int {
    if span >= 0 then (4 * span) / FourYearsTicks else -((4 * -span) / FourYearsTicks)
  }

  /** The full name starts with the first name and ends with the last, one space between. */
  lemma FullNameShape(d: Dancer)
    ensures |d.FullName()| == |d.firstName| + |d.lastName| + 1
    ensures d.FullName()[..|d.firstName|] == d.firstName
    ensures d.FullName()[|d.firstName|] == ' '
    ensures d.FullName()[|d.firstName| + 1..] == d.lastName
  {
  }

  /** When first names contain no space, the full name gives back both names. */
  lemma FullNameDeterminesNames(a: Dancer, b: Dancer)
    requires ' ' !in a.firstName && ' ' !in b.firstName
    requires a.FullName() == b.FullName()
    ensures a.firstName == b.firstName && a.lastName == b.lastName
  {
    var fa, fb := a.FullName(), b.FullName();
    FullNameShape(a);
    FullNameShape(b);
    assert a.firstName == fa[..|a.firstName|] == fb[..|b.firstName|] == b.firstName;
    assert a.lastName == fa[|a.firstName| + 1..] == fb[|b.firstName| + 1..] == b.lastName;
  }

  /** For a birth in the past the age counts the whole 365.25-day years lived, and never rounds up. */
  lemma AgeBounds(d: Dancer, now: DateTime)
    requires d.dateOfBirth.Some? && d.dateOfBirth.value <= now
    ensures d.Age(now).Some? && d.Age(now).value >= 0
    ensures d.Age(now).value * FourYearsTicks <= 4 * (now - d.dateOfBirth.value)
    ensures 4 * (now - d.dateOfBirth.value) < (d.Age(now).value + 1) * FourYearsTicks
  {
  }

  /** A date of birth in the future gives an age of zero or below; truncation toward zero makes the first year zero. */
  lemma AgeOfFutureBirth(d: Dancer, now: DateTime)
    requires d.dateOfBirth.Some? && now < d.dateOfBirth.value
    ensures d.Age(now).Some? && d.Age(now).value <= 0
    ensures now + FourYearsTicks / 4 > d.dateOfBirth.value ==> d.Age(now).value == 0
  {
  }

  /** `DancerStyle` */
  datatype DancerStyle = DancerStyle(
    id: Guid,
    dancerId: Guid,
    style: DanceStyle,
    proficiencyLevel: ProficiencyLevel,
    yearsOfExperience: int,
    notes: Option<string>,
    audit: Audit)
}

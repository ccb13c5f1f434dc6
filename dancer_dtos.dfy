// The request bodies, the response shape and the query parameters of the dancer endpoints,
// with the data-annotation rules the framework checks before an action runs.

module DancerDtos {
  import opened Common
  import opened StringExtensions
  import opened Annotations
  import opened DancerModel

  /** `DancerStyleDto`: the body of the style endpoints, and one style inside a dancer. */
  datatype DancerStyleDto = DancerStyleDto(
    style: DanceStyle,
    proficiencyLevel: ProficiencyLevel,
    yearsOfExperience: int,
    notes: Option<string>)
  {
    predicate Valid() {
      0 <= yearsOfExperience <= 50 && MaxLength(notes, 500)
    }
  }

  datatype CreateDancerDto = CreateDancerDto(
    firstName: string,
    lastName: string,
    email: Option<string>,
    phoneNumber: Option<string>,
    dateOfBirth: Option<DateTime>,
    gender: Gender,
    heightCm: Option<int>,
    weightKg: Option<int>,
    experienceLevel: ExperienceLevel,
    emergencyContactName: Option<string>,
    emergencyContactPhone: Option<string>,
    medicalNotes: Option<string>,
    notes: Option<string>,
    danceStyles: Option<seq<DancerStyleDto>>)
  {
    /** The declared annotations; `[EmailAddress]` is framework code and only its length limit is kept. */
    predicate Valid() {
      RequiredText(firstName) && MaxLengthText(firstName, 100) &&
      RequiredText(lastName) && MaxLengthText(lastName, 100) &&
      MaxLength(email, 255) && MaxLength(phoneNumber, 20) &&
      InRange(heightCm, 50, 250) && InRange(weightKg, 20, 200) &&
      MaxLength(emergencyContactName, 200) && MaxLength(emergencyContactPhone, 20) &&
      MaxLength(medicalNotes, 1000) && MaxLength(notes, 1000) &&
      (danceStyles.Some? ==> forall i :: 0 <= i < |danceStyles.value| ==> danceStyles.value[i].Valid())
    }

    /** The styles to create (`DanceStyles != null && DanceStyles.Any()`). */
    function StyleList(): seq<DancerStyleDto> {
      if danceStyles.Some? then danceStyles.value else []
    }
  }

  /** A create body that sets only the two names; every other property keeps its initializer. */
  function CreateDancerDefaults(firstName: string, lastName: string): CreateDancerDto {
    CreateDancerDto(firstName, lastName, None, None, None, Gender.NotSpecified, None, None,
                    ExperienceLevel.Beginner, None, None, None, None, None)
  }

  /** The defaults are an unspecified gender and the beginner level, and two names suffice. */
  lemma CreateDefaultsValid(firstName: string, lastName: string)
    requires RequiredText(firstName) && MaxLengthText(firstName, 100)
    requires RequiredText(lastName) && MaxLengthText(lastName, 100)
    ensures CreateDancerDefaults(firstName, lastName).Valid()
    ensures CreateDancerDefaults(firstName, lastName).gender == Gender.NotSpecified
    ensures CreateDancerDefaults(firstName, lastName).experienceLevel == ExperienceLevel.Beginner
    ensures CreateDancerDefaults(firstName, lastName).StyleList() == []
  {
  }

  /** A create body is refused when a name is blank or a measure is outside its range. */
  lemma CreateRefusals(d: CreateDancerDto)
    ensures IsNullOrWhiteSpace(Some(d.firstName)) ==> !d.Valid()
    ensures IsNullOrWhiteSpace(Some(d.lastName)) ==> !d.Valid()
    ensures d.heightCm.Some? && (d.heightCm.value < 50 || d.heightCm.value > 250) ==> !d.Valid()
    ensures d.weightKg.Some? && (d.weightKg.value < 20 || d.weightKg.value > 200) ==> !d.Valid()
    ensures (exists i :: 0 <= i < |d.StyleList()| && !(0 <= d.StyleList()[i].yearsOfExperience <= 50)) ==> !d.Valid()
  {
  }

  datatype UpdateDancerDto = UpdateDancerDto(
    firstName: Option<string>,
    lastName: Option<string>,
    email: Option<string>,
    phoneNumber: Option<string>,
    dateOfBirth: Option<DateTime>,
    gender: Option<Gender>,
    heightCm: Option<int>,
    weightKg: Option<int>,
    experienceLevel: Option<ExperienceLevel>,
    emergencyContactName: Option<string>,
    emergencyContactPhone: Option<string>,
    medicalNotes: Option<string>,
    notes: Option<string>,
    isActive: Option<bool>)
  {
    /** Only lengths and ranges: the names carry no `[Required]` here. */
    predicate Valid() {
      MaxLength(firstName, 100) && MaxLength(lastName, 100) &&
      MaxLength(email, 255) && MaxLength(phoneNumber, 20) &&
      InRange(heightCm, 50, 250) && InRange(weightKg, 20, 200) &&
      MaxLength(emergencyContactName, 200) && MaxLength(emergencyContactPhone, 20) &&
      MaxLength(medicalNotes, 1000) && MaxLength(notes, 1000)
    }
  }

  /** The update that sets nothing. */
  function EmptyDancerUpdate(): UpdateDancerDto {
    UpdateDancerDto(None, None, None, None, None, None, None, None, None, None, None, None, None, None)
  }

  /** Every update property is optional, and an empty first or last name passes validation, unlike on create. */
  lemma UpdateNamesOptional(blank: UpdateDancerDto)
    requires blank == EmptyDancerUpdate().(firstName := Some(""), lastName := Some(""))
    ensures EmptyDancerUpdate().Valid()
    ensures blank.Valid()
    ensures forall d: CreateDancerDto :: d.firstName == "" ==> !d.Valid()
  {
  }

  /** `DancerDto`; medical notes and notes are not part of the response. */
  datatype DancerDto = DancerDto(
    id: Guid,
    firstName: string,
    lastName: string,
    fullName: string,
    email: Option<string>,
    phoneNumber: Option<string>,
    dateOfBirth: Option<DateTime>,
    age: Option<int>,
    gender: Gender,
    heightCm: Option<int>,
    weightKg: Option<int>,
    experienceLevel: ExperienceLevel,
    emergencyContactName: Option<string>,
    emergencyContactPhone: Option<string>,
    joinedDate: DateTime,
    isActive: bool,
    danceStyles: seq<DancerStyleDto>,
    createdAt: DateTime,
    lastModifiedAt: Option<DateTime>)

  datatype DancerFilterParams = DancerFilterParams(
    searchTerm: Option<string>,
    gender: Option<Gender>,
    minExperienceLevel: Option<ExperienceLevel>,
    danceStyle: Option<DanceStyle>,
    isActive: Option<bool>,
    minAge: Option<int>,
    maxAge: Option<int>,
    page: int,
    pageSize: int)
  {
    predicate Valid() {
      InRange(minAge, 0, 120) && InRange(maxAge, 0, 120) &&
      1 <= page <= IntMax && 1 <= pageSize <= 100
    }
  }

  /** The parameters of a request that sets none: page 1 of 20, no filter. */
  function DefaultDancerFilter(): (f: DancerFilterParams)
    ensures f.Valid() && f.page == 1 && f.pageSize == 20
  {
    DancerFilterParams(None, None, None, None, None, None, None, 1, 20)
  }
}

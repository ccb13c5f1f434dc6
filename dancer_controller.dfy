// The dancer endpoints: the paged list, one dancer, creation behind the email check,
// the partial update behind the same check, and deletion with its style entries.

module DancerController {
  import opened Common
  import opened Seqs
  import opened StringExtensions
  import opened BaseDto
  import opened DancerModel
  import opened DancerDtos
  import opened DancerData
  import opened DancerRepository

  // ---- MapToDancerDto ----

  /** One style entry as the response shows it. */
  function StyleDtoOf(x: DancerStyle): DancerStyleDto {
    DancerStyleDto(x.style, x.proficiencyLevel, x.yearsOfExperience, x.notes)
  }

  function MapStyles(xs: seq<DancerStyle>): (r: seq<DancerStyleDto>)
    ensures |r| == |xs| && forall i :: 0 <= i < |r| ==> r[i] == StyleDtoOf(xs[i])
  {
    seq(|xs|, i requires 0 <= i < |xs| => StyleDtoOf(xs[i]))
  }

  /** `MapToDancerDto`, with `now` standing for the clock `Age` reads; the two note fields are not copied. */
  function MapToDancerDto(d: Dancer, styles: seq<DancerStyle>, now: DateTime): DancerDto {
    DancerDto(d.id, d.firstName, d.lastName, d.FullName(), d.email, d.phoneNumber, d.dateOfBirth,
              d.Age(now), d.gender, d.heightCm, d.weightKg, d.experienceLevel,
              d.emergencyContactName, d.emergencyContactPhone, d.joinedDate, d.isActive,
              MapStyles(styles), d.audit.createdAt, d.audit.lastModifiedAt)
  }

  /** The response joins the names, has an age exactly when a birth date is known, and lists every entry's data in order. */
  lemma DancerDtoShape(d: Dancer, styles: seq<DancerStyle>, now: DateTime)
    ensures var r := MapToDancerDto(d, styles, now);
      r.fullName == r.firstName + " " + r.lastName &&
      (r.age.None? <==> r.dateOfBirth.None?) &&
      |r.danceStyles| == |styles| &&
      forall i :: 0 <= i < |styles| ==>
        r.danceStyles[i].style == styles[i].style && r.danceStyles[i].notes == styles[i].notes &&
        r.danceStyles[i].proficiencyLevel == styles[i].proficiencyLevel &&
        r.danceStyles[i].yearsOfExperience == styles[i].yearsOfExperience
  {
  }

  // ---- queries ----

  /** The entries `Include(d => d.DanceStyles)` loads for a dancer. */
  function StylesOf(s: DancerState, id: Guid): seq<DancerStyle> {
    Filter(s.styles, StyleOf(id))
  }

  function MapDancers(s: DancerState, ds: seq<Dancer>, now: DateTime): (r: seq<DancerDto>)
    ensures |r| == |ds| && forall i :: 0 <= i < |r| ==> r[i] == MapToDancerDto(ds[i], StylesOf(s, ds[i].id), now)
  {
    seq(|ds|, i requires 0 <= i < |ds| => MapToDancerDto(ds[i], StylesOf(s, ds[i].id), now))
  }

  /** `GetDancers`: the page the repository returns, as DTOs, with the request's paging and the count before paging. */
  function GetDancers(s: DancerState, f: DancerFilterParams, yearsAgo: int -> DateTime, now: DateTime): (r: PagedResponse<DancerDto>)
    ensures r.page == f.page && r.pageSize == f.pageSize
    ensures r.totalCount == Count(s.dancers, DancerMatching(s, f, yearsAgo))
    ensures |r.items| == |GetFiltered(s, f, yearsAgo).0|
    ensures forall i :: 0 <= i < |r.items| ==>
      r.items[i] == MapToDancerDto(GetFiltered(s, f, yearsAgo).0[i], StylesOf(s, r.items[i].id), now)
  {
    var (items, total) := GetFiltered(s, f, yearsAgo);
    PagedResponse(f.page, f.pageSize, total, MapDancers(s, items, now))
  }

  /** Every listed dancer is stored, meets the filter, and is shown with its own entries. */
  lemma GetDancersMatches(s: DancerState, f: DancerFilterParams, yearsAgo: int -> DateTime, now: DateTime, i: nat)
    requires i < |GetDancers(s, f, yearsAgo, now).items|
    ensures var r := GetDancers(s, f, yearsAgo, now).items[i];
      exists d :: d in s.dancers && DancerMatchesFilter(s, f, yearsAgo, d) && d.id == r.id &&
        r == MapToDancerDto(d, StylesOf(s, d.id), now)
  {
    var page := GetFiltered(s, f, yearsAgo).0;
    assert page[i] in page;
  }

  /** The list is ordered by last name, then first name. */
  lemma GetDancersOrdered(s: DancerState, f: DancerFilterParams, yearsAgo: int -> DateTime, now: DateTime, i: nat, j: nat)
    requires i < j < |GetDancers(s, f, yearsAgo, now).items|
    ensures var items := GetDancers(s, f, yearsAgo, now).items;
      StrPairLe(items[i].lastName, items[i].firstName, items[j].lastName, items[j].firstName)
  {
    var page := GetFiltered(s, f, yearsAgo).0;
    var items := GetDancers(s, f, yearsAgo, now).items;
    assert Sorted(page, ByName());
    var a, b := page[i], page[j];
    assert ByName()(a, b);
    ByNameMeans(a, b);
    assert items[i].lastName == a.lastName && items[i].firstName == a.firstName;
    assert items[j].lastName == b.lastName && items[j].firstName == b.firstName;
  }

  /** `GetDancer`: the dancer with its entries, or NotFound. */
  function GetDancer(s: DancerState, id: Guid, now: DateTime): (r: ActionResult<DancerDto>)
    ensures r.NotFound? <==> FindDancer(s, id).None?
    ensures r.NotFound? ==> r.reason == DancerNotFound
    ensures r.NotFound? || r.Ok?
    ensures r.Ok? ==> r.value.id == id && r.value == MapToDancerDto(FindDancer(s, id).value, StylesOf(s, id), now)
  {
    match GetByIdWithDetails(s, id)
    case None => NotFound(DancerNotFound)
    case Some(x) => Ok(MapToDancerDto(x.dancer, x.styles, now))
  }

  // ---- CreateDancer ----

  /** The dancer `CreateDancer` builds: the body's data, joined now, active, created by the caller. */
  function NewDancer(id: Guid, d: CreateDancerDto, now: DateTime, user: Option<string>): Dancer {
    Dancer(id, d.firstName, d.lastName, d.email, d.phoneNumber, d.dateOfBirth, d.gender,
           d.heightCm, d.weightKg, d.experienceLevel, d.emergencyContactName, d.emergencyContactPhone,
           d.medicalNotes, d.notes, now, true, NewAudit(now, user))
  }

  /** The style entries built from the body, one per listed style and in its order, with no check for repeats. */
  function NewStyles(dancerId: Guid, ds: seq<DancerStyleDto>, styleIds: seq<Guid>, now: DateTime, user: Option<string>)
    : (r: seq<DancerStyle>)
    requires |styleIds| == |ds|
    ensures |r| == |ds|
    ensures forall i :: 0 <= i < |r| ==>
      r[i] == DancerStyle(styleIds[i], dancerId, ds[i].style, ds[i].proficiencyLevel, ds[i].yearsOfExperience,
                          ds[i].notes, NewAudit(now, user))
  {
    seq(|ds|, i requires 0 <= i < |ds| =>
      DancerStyle(styleIds[i], dancerId, ds[i].style, ds[i].proficiencyLevel, ds[i].yearsOfExperience,
                  ds[i].notes, NewAudit(now, user)))
  }

  /** `CreateDancer`; `newId` and `styleIds` are the ids generated for the dancer and its entries. */
  function CreateDancerStep(s: DancerState, d: CreateDancerDto, newId: Guid, styleIds: seq<Guid>, now: DateTime, user: Option<string>)
    : (r: Step<DancerState, DancerDto>)
    requires |styleIds| == |d.StyleList()|
    ensures !IsNullOrWhiteSpace(d.email) && EmailExists(s, d.email.value, None) ==> r == Step(s, BadRequest(EmailTaken))
    ensures r.result.IsSuccess() <==> d.email.None? || !EmailHeld(s, d.email.value, None)
    ensures !r.result.IsSuccess() ==> r.state == s
    ensures r.result.ServerError? ==>
      r.result.reason == UniqueIndexViolation && IsNullOrWhiteSpace(d.email) && d.email.Some?
    ensures r.result.IsSuccess() ==>
      var x := NewDancer(newId, d, now, user);
      var styles := NewStyles(newId, d.StyleList(), styleIds, now, user);
      r.state == DancerAdded(s, x, styles) && r.result == Created(MapToDancerDto(x, styles, now))
  {
    if !IsNullOrWhiteSpace(d.email) && EmailExists(s, d.email.value, None) then Step(s, BadRequest(EmailTaken))
    else if d.email.Some? && EmailHeld(s, d.email.value, None) then Step(s, ServerError(UniqueIndexViolation))
    else
      var x := NewDancer(newId, d, now, user);
      var styles := NewStyles(newId, d.StyleList(), styleIds, now, user);
      Step(DancerAdded(s, x, styles), Created(MapToDancerDto(x, styles, now)))
  }

  /** Ids no stored entry carries, and no two alike. */
  predicate FreshStyleIds(s: DancerState, ids: seq<Guid>) {
    (forall i, j :: 0 <= i < j < |ids| ==> ids[i] != ids[j]) &&
    (forall i :: 0 <= i < |ids| ==> StyleIndex(s, ids[i]).None?)
  }

  lemma NewStyleKeysUnique(s: DancerState, styles: seq<DancerStyle>, ids: seq<Guid>)
    requires UniqueBy(s.styles, StyleKey) && FreshStyleIds(s, ids)
    requires |styles| == |ids| && forall i :: 0 <= i < |styles| ==> styles[i].id == ids[i]
    ensures UniqueBy(s.styles + styles, StyleKey)
  {
    var all := s.styles + styles;
    var n := |s.styles|;
    forall i, j | 0 <= i < j < |all| ensures StyleKey(all[i]) != StyleKey(all[j]) {
      if j >= n && i < n {
        assert all[j] == styles[j - n];
        assert IndexOfKey(s.styles, StyleKey, ids[j - n]).None?;
        assert all[i] == s.styles[i];
      } else if i >= n {
        assert all[i] == styles[i - n] && all[j] == styles[j - n];
      } else {
        assert all[i] == s.styles[i] && all[j] == s.styles[j];
      }
    }
  }

  /** A created dancer is stored, joined now and active, with exactly one entry per listed style, carrying the listed data. */
  lemma CreateDancerStores(s: DancerState, d: CreateDancerDto, newId: Guid, styleIds: seq<Guid>, now: DateTime, user: Option<string>)
    requires Valid(s) && DancerIndex(s, newId).None? && FreshStyleIds(s, styleIds)
    requires |styleIds| == |d.StyleList()|
    requires CreateDancerStep(s, d, newId, styleIds, now, user).result.IsSuccess()
    ensures var t := CreateDancerStep(s, d, newId, styleIds, now, user).state;
      Valid(t) && FindDancer(t, newId) == Some(NewDancer(newId, d, now, user)) &&
      FindDancer(t, newId).value.isActive && FindDancer(t, newId).value.joinedDate == now &&
      |StylesOf(t, newId)| == |d.StyleList()| &&
      forall i :: 0 <= i < |d.StyleList()| ==>
        StylesOf(t, newId)[i].style == d.StyleList()[i].style &&
        StylesOf(t, newId)[i].proficiencyLevel == d.StyleList()[i].proficiencyLevel &&
        StylesOf(t, newId)[i].yearsOfExperience == d.StyleList()[i].yearsOfExperience &&
        StylesOf(t, newId)[i].notes == d.StyleList()[i].notes
  {
    var x := NewDancer(newId, d, now, user);
    var styles := NewStyles(newId, d.StyleList(), styleIds, now, user);
    NewStyleKeysUnique(s, styles, styleIds);
    DancerAddedValid(s, x, styles);
  }

  /** A body that lists each style once keeps every dancer's styles distinct. */
  lemma CreateDancerKeepsDistinct(s: DancerState, d: CreateDancerDto, newId: Guid, styleIds: seq<Guid>, now: DateTime, user: Option<string>)
    requires Valid(s) && StylesDistinct(s) && DancerIndex(s, newId).None?
    requires |styleIds| == |d.StyleList()|
    requires forall i, j :: 0 <= i < j < |d.StyleList()| ==> d.StyleList()[i].style != d.StyleList()[j].style
    ensures StylesDistinct(CreateDancerStep(s, d, newId, styleIds, now, user).state)
  {
    if CreateDancerStep(s, d, newId, styleIds, now, user).result.IsSuccess() {
      var x := NewDancer(newId, d, now, user);
      var styles := NewStyles(newId, d.StyleList(), styleIds, now, user);
      DancerAddedDistinct(s, x, styles);
    }
  }

  /** A body that lists one style twice gives the new dancer two entries for it: creation does not check repeats. */
  lemma CreateDancerAllowsRepeatedStyle(s: DancerState, d: CreateDancerDto, newId: Guid, styleIds: seq<Guid>, now: DateTime, user: Option<string>,
                                        i: nat, j: nat)
    requires |styleIds| == |d.StyleList()|
    requires i < j < |d.StyleList()| && d.StyleList()[i].style == d.StyleList()[j].style
    requires CreateDancerStep(s, d, newId, styleIds, now, user).result.IsSuccess()
    ensures !StylesDistinct(CreateDancerStep(s, d, newId, styleIds, now, user).state)
  {
    var t := CreateDancerStep(s, d, newId, styleIds, now, user).state;
    var n := |s.styles|;
    assert StylePair(t.styles[n + i]) == StylePair(t.styles[n + j]);
  }

  /** The database refuses only a blank email some dancer already holds; any other email passes or is refused by the check. */
  lemma CreateIndexViolationOnlyBlank(s: DancerState, d: CreateDancerDto, newId: Guid, styleIds: seq<Guid>, now: DateTime, user: Option<string>)
    requires |styleIds| == |d.StyleList()|
    ensures CreateDancerStep(s, d, newId, styleIds, now, user).result.ServerError? <==>
      d.email.Some? && IsNullOrWhiteSpace(d.email) && EmailHeld(s, d.email.value, None)
    ensures CreateDancerStep(s, d, newId, styleIds, now, user).result.BadRequest? <==>
      d.email.Some? && !IsNullOrWhiteSpace(d.email) && EmailHeld(s, d.email.value, None)
  {
    if d.email.Some? { EmailExistsIsIndexForNonBlank(s, d.email.value, None); }
  }

  // ---- UpdateDancer ----

  /** The dancer after the update: each supplied field replaces the stored one, and the audit columns record the change. */
  function ApplyDancerUpdate(x: Dancer, d: UpdateDancerDto, now: DateTime, user: Option<string>): (r: Dancer)
    ensures r.id == x.id && r.joinedDate == x.joinedDate
    ensures r.audit == Touch(x.audit, now, user)
  {
    x.(firstName := d.firstName.GetOr(x.firstName),
       lastName := d.lastName.GetOr(x.lastName),
       email := d.email.OrElse(x.email),
       phoneNumber := d.phoneNumber.OrElse(x.phoneNumber),
       dateOfBirth := d.dateOfBirth.OrElse(x.dateOfBirth),
       gender := d.gender.GetOr(x.gender),
       heightCm := d.heightCm.OrElse(x.heightCm),
       weightKg := d.weightKg.OrElse(x.weightKg),
       experienceLevel := d.experienceLevel.GetOr(x.experienceLevel),
       emergencyContactName := d.emergencyContactName.OrElse(x.emergencyContactName),
       emergencyContactPhone := d.emergencyContactPhone.OrElse(x.emergencyContactPhone),
       medicalNotes := d.medicalNotes.OrElse(x.medicalNotes),
       notes := d.notes.OrElse(x.notes),
       isActive := d.isActive.GetOr(x.isActive),
       audit := Touch(x.audit, now, user))
  }

  /** A supplied field is taken from the body, an absent one is kept; nothing can be cleared to null. */
  lemma UpdateOverwritesOnlySupplied(x: Dancer, d: UpdateDancerDto, now: DateTime, user: Option<string>)
    ensures var r := ApplyDancerUpdate(x, d, now, user);
      (d.firstName.Some? ==> r.firstName == d.firstName.value) && (d.firstName.None? ==> r.firstName == x.firstName) &&
      (d.lastName.Some? ==> r.lastName == d.lastName.value) && (d.lastName.None? ==> r.lastName == x.lastName) &&
      (d.email.Some? ==> r.email == d.email) && (d.email.None? ==> r.email == x.email) &&
      (d.dateOfBirth.Some? ==> r.dateOfBirth == d.dateOfBirth) && (d.dateOfBirth.None? ==> r.dateOfBirth == x.dateOfBirth) &&
      (d.gender.Some? ==> r.gender == d.gender.value) && (d.gender.None? ==> r.gender == x.gender) &&
      (d.experienceLevel.Some? ==> r.experienceLevel == d.experienceLevel.value) &&
      (d.experienceLevel.None? ==> r.experienceLevel == x.experienceLevel) &&
      (d.medicalNotes.None? ==> r.medicalNotes == x.medicalNotes) && (d.notes.None? ==> r.notes == x.notes) &&
      (d.isActive.Some? ==> r.isActive == d.isActive.value) && (d.isActive.None? ==> r.isActive == x.isActive) &&
      (x.email.Some? ==> r.email.Some?) && (x.dateOfBirth.Some? ==> r.dateOfBirth.Some?)
  {
  }

  /** An empty update only stamps the audit columns, and applying an update twice is the same as once. */
  lemma UpdateIdempotent(x: Dancer, d: UpdateDancerDto, now: DateTime, user: Option<string>)
    ensures ApplyDancerUpdate(x, EmptyDancerUpdate(), now, user) == x.(audit := Touch(x.audit, now, user))
    ensures ApplyDancerUpdate(ApplyDancerUpdate(x, d, now, user), d, now, user) == ApplyDancerUpdate(x, d, now, user)
  {
  }

  /** The email check of `UpdateDancer`: a non-blank email that differs from the dancer's and another dancer holds. */
  predicate UpdateEmailTaken(s: DancerState, x: Dancer, d: UpdateDancerDto) {
    !IsNullOrWhiteSpace(d.email) && d.email != x.email && EmailExists(s, d.email.value, Some(x.id))
  }

  /** `UpdateDancer` */
  function UpdateDancerStep(s: DancerState, id: Guid, d: UpdateDancerDto, now: DateTime, user: Option<string>)
    : (r: Step<DancerState, DancerDto>)
    ensures FindDancer(s, id).None? ==> r == Step(s, NotFound(DancerNotFound))
    ensures FindDancer(s, id).Some? && UpdateEmailTaken(s, FindDancer(s, id).value, d) ==> r == Step(s, BadRequest(EmailTaken))
    ensures !r.result.IsSuccess() ==> r.state == s
    ensures r.result.IsSuccess() ==> r.result.Ok? && FindDancer(s, id).Some?
    ensures r.result.IsSuccess() ==>
      var y := ApplyDancerUpdate(FindDancer(s, id).value, d, now, user);
      r.state == DancerUpdated(s, y) && r.result.value == MapToDancerDto(y, StylesOf(s, id), now)
  {
    match GetByIdWithDetails(s, id)
    case None => Step(s, NotFound(DancerNotFound))
    case Some(details) =>
      var x := details.dancer;
      if UpdateEmailTaken(s, x, d) then Step(s, BadRequest(EmailTaken))
      else
        var y := ApplyDancerUpdate(x, d, now, user);
        if y.email.Some? && EmailHeld(s, y.email.value, Some(id)) then Step(s, ServerError(UniqueIndexViolation))
        else Step(DancerUpdated(s, y), Ok(MapToDancerDto(y, details.styles, now)))
  }

  /** On a valid store the database refuses an update only for a new blank email that another dancer holds. */
  lemma UpdateIndexViolationOnlyBlank(s: DancerState, id: Guid, d: UpdateDancerDto, now: DateTime, user: Option<string>)
    requires Valid(s)
    ensures UpdateDancerStep(s, id, d, now, user).result.ServerError? <==>
      FindDancer(s, id).Some? && d.email.Some? && IsNullOrWhiteSpace(d.email) &&
      d.email != FindDancer(s, id).value.email && EmailHeld(s, d.email.value, Some(id))
  {
    var found := FindDancer(s, id);
    if found.Some? {
      var x := found.value;
      var k := DancerIndex(s, id).value;
      FindDancerAt(s, k);
      if x.email.Some? { OwnEmailIsFree(s, k); }
      if d.email.Some? { EmailExistsIsIndexForNonBlank(s, d.email.value, Some(id)); }
    }
  }

  /** Keeping one's own email, or supplying none, always passes the email check. */
  lemma OwnEmailAccepted(s: DancerState, x: Dancer, d: UpdateDancerDto)
    requires d.email.None? || d.email == x.email
    ensures !UpdateEmailTaken(s, x, d)
  {
  }

  /** An accepted update keeps the store valid, changes only that dancer, and leaves every style entry as it was. */
  lemma UpdateDancerValid(s: DancerState, id: Guid, d: UpdateDancerDto, now: DateTime, user: Option<string>)
    requires Valid(s)
    requires UpdateDancerStep(s, id, d, now, user).result.IsSuccess()
    ensures var t := UpdateDancerStep(s, id, d, now, user).state;
      Valid(t) && t.styles == s.styles && (StylesDistinct(s) ==> StylesDistinct(t)) &&
      FindDancer(t, id) == Some(ApplyDancerUpdate(FindDancer(s, id).value, d, now, user)) &&
      forall j :: 0 <= j < |s.dancers| && s.dancers[j].id != id ==> t.dancers[j] == s.dancers[j]
  {
    var x := FindDancer(s, id).value;
    var y := ApplyDancerUpdate(x, d, now, user);
    var k := DancerIndex(s, id).value;
    FindDancerAt(s, k);
    DancerUpdatedValid(s, y);
  }

  // ---- DeleteDancer ----

  /** `DeleteDancer` */
  function DeleteDancerStep(s: DancerState, id: Guid): (r: Step<DancerState, bool>)
    ensures FindDancer(s, id).None? <==> r == Step(s, NotFound(DancerNotFound))
    ensures r.result.IsSuccess() ==> r.result == Ok(true) && r.state == DancerDeleted(s, FindDancer(s, id).value)
    ensures r.result.IsSuccess() || r.result.NotFound?
  {
    match FindDancer(s, id)
    case None => Step(s, NotFound(DancerNotFound))
    case Some(x) => Step(DancerDeleted(s, x), Ok(true))
  }

  /** Deleting a dancer removes it and its entries and keeps every other dancer and entry. */
  lemma DeleteDancerCascades(s: DancerState, id: Guid)
    requires Valid(s) && FindDancer(s, id).Some?
    ensures var t := DeleteDancerStep(s, id).state;
      Valid(t) && FindDancer(t, id).None? && StylesOf(t, id) == [] &&
      (forall x :: x in t.dancers <==> x in s.dancers && x.id != id) &&
      (forall x :: x in t.styles <==> x in s.styles && x.dancerId != id)
  {
    var x := FindDancer(s, id).value;
    var k := DancerIndex(s, id).value;
    DancerDeletedValid(s, x);
    var t := DeleteDancerStep(s, id).state;
    forall y | y in s.dancers && y.id != id ensures y in t.dancers {
      var j :| 0 <= j < |s.dancers| && s.dancers[j] == y;
      RemovedKeeps(s.dancers, k, j);
    }
  }

  lemma RemovedKeeps<T>(xs: seq<T>, i: nat, j: nat)
    requires i < |xs| && j < |xs| && i != j
    ensures xs[j] in RemoveAt(xs, i)
  {
    var r := RemoveAt(xs, i);
    if j < i { assert r[j] == xs[j]; } else { assert r[j - 1] == xs[j]; }
  }

  // ---- the actions on the context ----

  /** `CreateDancer`: the email check, the new dancer and its entries, and the insert the unique index may refuse. */
  method CreateDancer(db: DancerDb, d: CreateDancerDto, newId: Guid, styleIds: seq<Guid>, now: DateTime, user: Option<string>)
    returns (result: ActionResult<DancerDto>)
    requires |styleIds| == |d.StyleList()|
    modifies db
    ensures Step(db.State(), result) == CreateDancerStep(old(db.State()), d, newId, styleIds, now, user)
  {
    if !IsNullOrWhiteSpace(d.email) && EmailExists(db.State(), d.email.value, None) {
      return BadRequest(EmailTaken);
    }
    var x := NewDancer(newId, d, now, user);
    var styles := [];
    if d.danceStyles.Some? && |d.danceStyles.value| > 0 {
      styles := NewStyles(newId, d.StyleList(), styleIds, now, user);
    }
    assert styles == NewStyles(newId, d.StyleList(), styleIds, now, user);
    if x.email.Some? && EmailHeld(db.State(), x.email.value, None) {
      // the unique index on Email refuses the row and nothing is saved
      return ServerError(UniqueIndexViolation);
    }
    AddDancer(db, x, styles);
    return Created(MapToDancerDto(x, styles, now));
  }

  /** `UpdateDancer`: the checks, then the supplied fields assigned one by one. */
  method UpdateDancer(db: DancerDb, id: Guid, d: UpdateDancerDto, now: DateTime, user: Option<string>)
    returns (result: ActionResult<DancerDto>)
    modifies db
    ensures Step(db.State(), result) == UpdateDancerStep(old(db.State()), id, d, now, user)
  {
    var details := GetByIdWithDetails(db.State(), id);
    if details.None? {
      return NotFound(DancerNotFound);
    }
    var x := details.value.dancer;
    if !IsNullOrWhiteSpace(d.email) && d.email != x.email && EmailExists(db.State(), d.email.value, Some(id)) {
      return BadRequest(EmailTaken);
    }
    // each supplied field replaces the stored one; an absent one keeps it
    x := x.(firstName := d.firstName.GetOr(x.firstName));
    x := x.(lastName := d.lastName.GetOr(x.lastName));
    x := x.(email := d.email.OrElse(x.email));
    x := x.(phoneNumber := d.phoneNumber.OrElse(x.phoneNumber));
    x := x.(dateOfBirth := d.dateOfBirth.OrElse(x.dateOfBirth));
    x := x.(gender := d.gender.GetOr(x.gender));
    x := x.(heightCm := d.heightCm.OrElse(x.heightCm));
    x := x.(weightKg := d.weightKg.OrElse(x.weightKg));
    x := x.(experienceLevel := d.experienceLevel.GetOr(x.experienceLevel));
    x := x.(emergencyContactName := d.emergencyContactName.OrElse(x.emergencyContactName));
    x := x.(emergencyContactPhone := d.emergencyContactPhone.OrElse(x.emergencyContactPhone));
    x := x.(medicalNotes := d.medicalNotes.OrElse(x.medicalNotes));
    x := x.(notes := d.notes.OrElse(x.notes));
    x := x.(isActive := d.isActive.GetOr(x.isActive));
    x := x.(audit := Touch(x.audit, now, user));
    assert x == ApplyDancerUpdate(details.value.dancer, d, now, user);
    if x.email.Some? && EmailHeld(db.State(), x.email.value, Some(id)) {
      // the unique index on Email refuses the change and nothing is saved
      return ServerError(UniqueIndexViolation);
    }
    DancerRepository.UpdateDancer(db, x);
    return Ok(MapToDancerDto(x, details.value.styles, now));
  }

  /** `DeleteDancer` */
  method DeleteDancer(db: DancerDb, id: Guid) returns (result: ActionResult<bool>)
    modifies db
    ensures Step(db.State(), result) == DeleteDancerStep(old(db.State()), id)
  {
    var x := FindDancer(db.State(), id);
    if x.None? {
      return NotFound(DancerNotFound);
    }
    DancerRepository.DeleteDancer(db, x.value);
    return Ok(true);
  }
}

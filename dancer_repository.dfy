// The dancer repository: the dancer with its style entries, the filtered and paged dancer
// list, the email check, and the writes on dancers and style entries.

module DancerRepository {
  import opened Common
  import opened Seqs
  import opened StringExtensions
  import opened DancerModel
  import opened DancerDtos
  import opened DancerData

  // ---- lookups ----

  /** A dancer together with the style entries its navigation collection loads. */
  datatype DancerDetails = DancerDetails(dancer: Dancer, styles: seq<DancerStyle>)

  /** `GetByIdWithDetailsAsync`: the first dancer with that id, with its style entries in storage order. */
  function GetByIdWithDetails(s: DancerState, id: Guid): (r: Option<DancerDetails>)
    ensures r.None? <==> forall j :: 0 <= j < |s.dancers| ==> s.dancers[j].id != id
    ensures r.Some? ==> r.value.dancer in s.dancers && r.value.dancer.id == id
    ensures r.Some? ==> r.value.dancer == FindDancer(s, id).value
    ensures r.Some? ==> r.value.styles == Filter(s.styles, StyleOf(id))
    ensures r.Some? ==> forall x :: x in r.value.styles <==> x in s.styles && x.dancerId == id
  {
    match DancerIndex(s, id)
    case None => None
    case Some(k) => Some(DancerDetails(s.dancers[k], Filter(s.styles, StyleOf(id))))
  }

  // ---- the filtered, paged query ----

  /** The search: the lower-cased term occurs in the first name, the last name, the two joined by a space, or the email. */
  predicate DancerSearchHit(d: Dancer, term: string) {
    ContainsIgnoreCase(d.firstName, term) ||
    ContainsIgnoreCase(d.lastName, term) ||
    ContainsIgnoreCase(d.firstName + " " + d.lastName, term) ||
    (d.email.Some? && ContainsIgnoreCase(d.email.value, term))
  }

  function DancerSearching(term: string): Dancer -> bool {
    (d: Dancer) => DancerSearchHit(d, term)
  }

  function OfGender(g: Gender): Dancer -> bool {
    (d: Dancer) => d.gender == g
  }

  function AtLeastLevel(l: ExperienceLevel): Dancer -> bool {
    (d: Dancer) => d.experienceLevel.Value() >= l.Value()
  }

  function ActiveIs(b: bool): Dancer -> bool {
    (d: Dancer) => d.isActive == b
  }

  /** `DateOfBirth <= bound`; a null date of birth compares as unknown and the row is dropped. */
  function BornUntil(bound: DateTime): Dancer -> bool {
    (d: Dancer) => d.dateOfBirth.Some? && d.dateOfBirth.value <= bound
  }

  /** `DateOfBirth >= bound`; a null date of birth drops the row. */
  function BornFrom(bound: DateTime): Dancer -> bool {
    (d: Dancer) => d.dateOfBirth.Some? && d.dateOfBirth.value >= bound
  }

  /** `d.DanceStyles.Any(ds => ds.Style == style)` over the style table. */
  function HasStyleEntry(styles: seq<DancerStyle>, id: Guid, style: DanceStyle): bool {
    Any(styles, (x: DancerStyle) => x.dancerId == id && x.style == style)
  }

  function WithStyle(styles: seq<DancerStyle>, style: DanceStyle): Dancer -> bool {
    (d: Dancer) => HasStyleEntry(styles, d.id, style)
  }

  /**
   * The age bounds. `yearsAgo(n)` stands for `DateTime.UtcNow.AddYears(-n)`, the calendar
   * arithmetic of the query's clock reading: `MinAge` bounds the date of birth from above
   * by `yearsAgo(MinAge)`, `MaxAge` from below by `yearsAgo(MaxAge + 1)` plus one day.
   */
  function LatestBirth(minAge: int, yearsAgo: int -> DateTime): DateTime {
    yearsAgo(minAge)
  }

  function EarliestBirth(maxAge: int, yearsAgo: int -> DateTime): DateTime {
    yearsAgo(maxAge + 1) + TicksPerDay
  }

  /** The `Where` clauses `GetFilteredAsync` adds, in the order it adds them. */
  function DancerFilters(s: DancerState, f: DancerFilterParams, yearsAgo: int -> DateTime): seq<Dancer -> bool> {
    ProfileFilters(f) + AgeStyleFilters(s, f, yearsAgo)
  }

  /** The search and the three attribute clauses. */
  function ProfileFilters(f: DancerFilterParams): seq<Dancer -> bool> {
    (if !IsNullOrWhiteSpace(f.searchTerm) then [DancerSearching(f.searchTerm.value)] else []) +
    (if f.gender.Some? then [OfGender(f.gender.value)] else []) +
    (if f.minExperienceLevel.Some? then [AtLeastLevel(f.minExperienceLevel.value)] else []) +
    (if f.isActive.Some? then [ActiveIs(f.isActive.value)] else [])
  }

  /** The two age bounds and the style. */
  function AgeStyleFilters(s: DancerState, f: DancerFilterParams, yearsAgo: int -> DateTime): seq<Dancer -> bool> {
    (if f.minAge.Some? then [BornUntil(LatestBirth(f.minAge.value, yearsAgo))] else []) +
    (if f.maxAge.Some? then [BornFrom(EarliestBirth(f.maxAge.value, yearsAgo))] else []) +
    (if f.danceStyle.Some? then [WithStyle(s.styles, f.danceStyle.value)] else [])
  }

  predicate ProfileMatches(f: DancerFilterParams, d: Dancer) {
    (!IsNullOrWhiteSpace(f.searchTerm) ==> DancerSearchHit(d, f.searchTerm.value)) &&
    (f.gender.Some? ==> d.gender == f.gender.value) &&
    (f.minExperienceLevel.Some? ==> f.minExperienceLevel.value.Value() <= d.experienceLevel.Value()) &&
    (f.isActive.Some? ==> d.isActive == f.isActive.value)
  }

  predicate AgeStyleMatches(s: DancerState, f: DancerFilterParams, yearsAgo: int -> DateTime, d: Dancer) {
    (f.minAge.Some? ==> d.dateOfBirth.Some? && d.dateOfBirth.value <= yearsAgo(f.minAge.value)) &&
    (f.maxAge.Some? ==> d.dateOfBirth.Some? && yearsAgo(f.maxAge.value + 1) + TicksPerDay <= d.dateOfBirth.value) &&
    (f.danceStyle.Some? ==> exists j :: 0 <= j < |s.styles| && s.styles[j].dancerId == d.id && s.styles[j].style == f.danceStyle.value)
  }

  /** What the parameters ask of a dancer: every supplied criterion; an age criterion also asks for a date of birth. */
  predicate DancerMatchesFilter(s: DancerState, f: DancerFilterParams, yearsAgo: int -> DateTime, d: Dancer) {
    ProfileMatches(f, d) && AgeStyleMatches(s, f, yearsAgo, d)
  }

  function DancerMatching(s: DancerState, f: DancerFilterParams, yearsAgo: int -> DateTime): Dancer -> bool {
    (d: Dancer) => DancerMatchesFilter(s, f, yearsAgo, d)
  }

  lemma ProfileFiltersMeanMatch(f: DancerFilterParams, d: Dancer)
    ensures AllOf(ProfileFilters(f))(d) <==> ProfileMatches(f, d)
  {
    var p1 := if !IsNullOrWhiteSpace(f.searchTerm) then [DancerSearching(f.searchTerm.value)] else [];
    var p2 := if f.gender.Some? then [OfGender(f.gender.value)] else [];
    var p3 := if f.minExperienceLevel.Some? then [AtLeastLevel(f.minExperienceLevel.value)] else [];
    var p4 := if f.isActive.Some? then [ActiveIs(f.isActive.value)] else [];
    AllOfConcat(p1, p2, d);
    AllOfConcat(p1 + p2, p3, d);
    AllOfConcat(p1 + p2 + p3, p4, d);
    if !IsNullOrWhiteSpace(f.searchTerm) { AllOfOptional(true, DancerSearching(f.searchTerm.value), d); }
    if f.gender.Some? { AllOfOptional(true, OfGender(f.gender.value), d); }
    if f.minExperienceLevel.Some? { AllOfOptional(true, AtLeastLevel(f.minExperienceLevel.value), d); }
    if f.isActive.Some? { AllOfOptional(true, ActiveIs(f.isActive.value), d); }
  }

  lemma AgeStyleFiltersMeanMatch(s: DancerState, f: DancerFilterParams, yearsAgo: int -> DateTime, d: Dancer)
    ensures AllOf(AgeStyleFilters(s, f, yearsAgo))(d) <==> AgeStyleMatches(s, f, yearsAgo, d)
  {
    var p1 := if f.minAge.Some? then [BornUntil(LatestBirth(f.minAge.value, yearsAgo))] else [];
    var p2 := if f.maxAge.Some? then [BornFrom(EarliestBirth(f.maxAge.value, yearsAgo))] else [];
    var p3 := if f.danceStyle.Some? then [WithStyle(s.styles, f.danceStyle.value)] else [];
    AllOfConcat(p1, p2, d);
    AllOfConcat(p1 + p2, p3, d);
    if f.minAge.Some? { AllOfOptional(true, BornUntil(LatestBirth(f.minAge.value, yearsAgo)), d); }
    if f.maxAge.Some? { AllOfOptional(true, BornFrom(EarliestBirth(f.maxAge.value, yearsAgo)), d); }
    if f.danceStyle.Some? { AllOfOptional(true, WithStyle(s.styles, f.danceStyle.value), d); }
  }

  /** A dancer passes the chain of clauses exactly when it meets every supplied criterion. */
  lemma DancerFiltersMeanMatch(s: DancerState, f: DancerFilterParams, yearsAgo: int -> DateTime, d: Dancer)
    ensures AllOf(DancerFilters(s, f, yearsAgo))(d) <==> DancerMatchesFilter(s, f, yearsAgo, d)
  {
    AllOfConcat(ProfileFilters(f), AgeStyleFilters(s, f, yearsAgo), d);
    ProfileFiltersMeanMatch(f, d);
    AgeStyleFiltersMeanMatch(s, f, yearsAgo, d);
  }

  /** The chain of clauses keeps exactly the dancers that meet the criteria, in storage order. */
  lemma DancerChainIsMatching(s: DancerState, f: DancerFilterParams, yearsAgo: int -> DateTime)
    ensures WhereAll(s.dancers, DancerFilters(s, f, yearsAgo)) == Filter(s.dancers, DancerMatching(s, f, yearsAgo))
  {
    WhereAllIsConjunction(s.dancers, DancerFilters(s, f, yearsAgo));
    forall i | 0 <= i < |s.dancers|
      ensures AllOf(DancerFilters(s, f, yearsAgo))(s.dancers[i]) == DancerMatching(s, f, yearsAgo)(s.dancers[i])
    {
      DancerFiltersMeanMatch(s, f, yearsAgo, s.dancers[i]);
    }
    FilterSame(s.dancers, AllOf(DancerFilters(s, f, yearsAgo)), DancerMatching(s, f, yearsAgo));
  }

  function LastNameOf(d: Dancer): string { d.lastName }
  function FirstNameOf(d: Dancer): string { d.firstName }

  /** `OrderBy(LastName).ThenBy(FirstName)` */
  function ByName(): (Dancer, Dancer) -> bool {
    ByStringThen(LastNameOf, FirstNameOf)
  }

  lemma ByNameMeans(a: Dancer, b: Dancer)
    ensures ByName()(a, b) <==> StrPairLe(a.lastName, a.firstName, b.lastName, b.firstName)
  {
    var le := ByStringThen(LastNameOf, FirstNameOf);
    assert le(a, b) == StrPairLe(LastNameOf(a), FirstNameOf(a), LastNameOf(b), FirstNameOf(b));
  }

  /** The dancers the filter keeps, by last name and then first name. */
  function FilteredDancers(s: DancerState, f: DancerFilterParams, yearsAgo: int -> DateTime): (r: seq<Dancer>)
    ensures Sorted(r, ByName())
    ensures forall d :: d in r <==> d in s.dancers && DancerMatchesFilter(s, f, yearsAgo, d)
    ensures multiset(r) == multiset(Filter(s.dancers, DancerMatching(s, f, yearsAgo)))
    ensures |r| == Count(s.dancers, DancerMatching(s, f, yearsAgo))
  {
    DancerChainIsMatching(s, f, yearsAgo);
    StringPairKeyPreorder(LastNameOf, FirstNameOf);
    SortBy(WhereAll(s.dancers, DancerFilters(s, f, yearsAgo)), ByName())
  }

  /** `GetFilteredAsync`: one page of the filtered dancers, and how many dancers the filter keeps before paging. */
  function GetFiltered(s: DancerState, f: DancerFilterParams, yearsAgo: int -> DateTime): (r: (seq<Dancer>, int))
    ensures r.1 == Count(s.dancers, DancerMatching(s, f, yearsAgo)) == |FilteredDancers(s, f, yearsAgo)|
    ensures forall d :: d in r.0 ==> d in s.dancers && DancerMatchesFilter(s, f, yearsAgo, d)
    ensures Sorted(r.0, ByName())
    ensures |r.0| <= if f.pageSize <= 0 then 0 else f.pageSize
    ensures r.0 == PageOf(FilteredDancers(s, f, yearsAgo), f.page, f.pageSize)
  {
    var ordered := FilteredDancers(s, f, yearsAgo);
    PageOfSorted(ordered, f.page, f.pageSize, ByName());
    (PageOf(ordered, f.page, f.pageSize), |ordered|)
  }

  /** With no criterion the query pages through every stored dancer. */
  lemma UnfilteredKeepsAll(s: DancerState, yearsAgo: int -> DateTime)
    ensures GetFiltered(s, DefaultDancerFilter(), yearsAgo).1 == |s.dancers|
  {
    FilterAll(s.dancers, DancerMatching(s, DefaultDancerFilter(), yearsAgo));
  }

  /** An age criterion drops every dancer whose date of birth is not recorded. */
  lemma AgeFilterNeedsBirthDate(s: DancerState, f: DancerFilterParams, yearsAgo: int -> DateTime, d: Dancer)
    requires f.minAge.Some? || f.maxAge.Some?
    requires d.dateOfBirth.None?
    ensures d !in GetFiltered(s, f, yearsAgo).0
    ensures d !in FilteredDancers(s, f, yearsAgo)
  {
  }

  /** A search for a dancer's full name, in any letter case, finds that dancer. */
  lemma FullNameSearchFinds(d: Dancer, term: string)
    requires ToLower(term) == ToLower(d.FullName())
    ensures DancerSearchHit(d, term)
  {
    var hay := ToLower(d.firstName + " " + d.lastName);
    assert hay[..|ToLower(term)|] == ToLower(term);
  }

  /** The minimum level keeps a dancer exactly when its level is at or above it in the enum order. */
  lemma MinimumLevelIsEnumOrder(l: ExperienceLevel, d: Dancer)
    ensures AtLeastLevel(l)(d) <==> d.experienceLevel == l || d.experienceLevel.Value() > l.Value()
    ensures AtLeastLevel(ExperienceLevel.Beginner)(d)
    ensures AtLeastLevel(ExperienceLevel.Instructor)(d) <==> d.experienceLevel == ExperienceLevel.Instructor
  {
    ExperienceOrderTotal(l, d.experienceLevel);
  }

  // ---- the email check ----

  /** Dancers other than the excluded one carrying exactly that email. */
  function HoldsEmail(email: string, excludeDancerId: Option<Guid>): Dancer -> bool {
    (d: Dancer) => d.email == Some(email) && (excludeDancerId.None? || d.id != excludeDancerId.value)
  }

  /** Whether the unique index would clash: a dancer other than the excluded one has exactly that email, blank or not. */
  function EmailHeld(s: DancerState, email: string, excludeDancerId: Option<Guid>): (r: bool)
    ensures r <==> exists i :: 0 <= i < |s.dancers| && HoldsEmail(email, excludeDancerId)(s.dancers[i])
  {
    Any(s.dancers, HoldsEmail(email, excludeDancerId))
  }

  /** `EmailExistsAsync`: false for a blank email; otherwise whether another dancer has exactly that email. */
  function EmailExists(s: DancerState, email: string, excludeDancerId: Option<Guid>): (r: bool)
    ensures r <==> (!IsNullOrWhiteSpace(Some(email)) &&
      exists i :: 0 <= i < |s.dancers| && s.dancers[i].email == Some(email) &&
        (excludeDancerId.None? || s.dancers[i].id != excludeDancerId.value))
  {
    if IsNullOrWhiteSpace(Some(email)) then false
    else Any(s.dancers, HoldsEmail(email, excludeDancerId))
  }

  /** The check and the index agree on every non-blank email; a blank one is never reported. */
  lemma EmailExistsIsIndexForNonBlank(s: DancerState, email: string, excludeDancerId: Option<Guid>)
    ensures EmailExists(s, email, excludeDancerId) ==> EmailHeld(s, email, excludeDancerId)
    ensures !IsNullOrWhiteSpace(Some(email)) ==> EmailExists(s, email, excludeDancerId) == EmailHeld(s, email, excludeDancerId)
    ensures IsNullOrWhiteSpace(Some(email)) ==> !EmailExists(s, email, excludeDancerId)
  {
  }

  /** A dancer does not clash with its own stored email. */
  lemma OwnEmailIsFree(s: DancerState, k: nat)
    requires UniqueBy(s.dancers, DancerKey) && EmailsUnique(s) && k < |s.dancers| && s.dancers[k].email.Some?
    ensures !EmailHeld(s, s.dancers[k].email.value, Some(s.dancers[k].id))
  {
  }

  // ---- dancer writes ----

  /** `AddAsync` on a dancer: the dancer and the style entries attached to it are inserted. */
  function DancerAdded(s: DancerState, d: Dancer, styles: seq<DancerStyle>): (r: DancerState)
    ensures r.dancers == s.dancers + [d] && r.styles == s.styles + styles
  {
    DancerState(s.dancers + [d], s.styles + styles)
  }

  lemma DancerAddedEmails(s: DancerState, d: Dancer, styles: seq<DancerStyle>)
    requires EmailsUnique(s)
    requires d.email.Some? ==> !EmailHeld(s, d.email.value, None)
    ensures EmailsUnique(DancerAdded(s, d, styles))
  {
    var t := DancerAdded(s, d, styles);
    var n := |s.dancers|;
    forall i, j | 0 <= i < |t.dancers| && 0 <= j < |t.dancers| && i != j && t.dancers[i].email.Some?
      ensures t.dancers[i].email != t.dancers[j].email
    {
      if i == n {
        assert t.dancers[j] == s.dancers[j];
      } else if j == n {
        assert t.dancers[i] == s.dancers[i];
      } else {
        assert t.dancers[i] == s.dancers[i] && t.dancers[j] == s.dancers[j];
      }
    }
  }

  lemma DancerAddedForeignKeys(s: DancerState, d: Dancer, styles: seq<DancerStyle>)
    requires ForeignKeys(s)
    requires forall j :: 0 <= j < |styles| ==> styles[j].dancerId == d.id
    ensures ForeignKeys(DancerAdded(s, d, styles))
  {
    var t := DancerAdded(s, d, styles);
    DancersPrefixKept(s, t);
    assert t.dancers[|s.dancers|] == d;
    assert DancerIndex(t, d.id).Some?;
    forall i | 0 <= i < |t.styles| ensures DancerIndex(t, t.styles[i].dancerId).Some? {
      if i < |s.styles| {
        assert t.styles[i] == s.styles[i];
      } else {
        assert t.styles[i] == styles[i - |s.styles|];
      }
    }
  }

  /** A new dancer had no entries before, so its own distinct entries keep the styles distinct. */
  lemma DancerAddedDistinct(s: DancerState, d: Dancer, styles: seq<DancerStyle>)
    requires ForeignKeys(s) && StylesDistinct(s) && DancerIndex(s, d.id).None?
    requires forall j :: 0 <= j < |styles| ==> styles[j].dancerId == d.id
    requires UniqueBy(styles, StylePair)
    ensures StylesDistinct(DancerAdded(s, d, styles))
  {
    var t := DancerAdded(s, d, styles);
    var n := |s.styles|;
    forall i, j | 0 <= i < j < |t.styles| ensures StylePair(t.styles[i]) != StylePair(t.styles[j]) {
      if j < n {
        assert t.styles[i] == s.styles[i] && t.styles[j] == s.styles[j];
      } else if i < n {
        assert t.styles[i] == s.styles[i];
        assert DancerIndex(s, s.styles[i].dancerId).Some?;
        assert t.styles[j] == styles[j - n];
      } else {
        assert t.styles[i] == styles[i - n] && t.styles[j] == styles[j - n];
      }
    }
  }

  /** A dancer with a fresh id, an email no one holds and fresh entries of its own keeps the store valid. */
  lemma DancerAddedValid(s: DancerState, d: Dancer, styles: seq<DancerStyle>)
    requires Valid(s)
    requires DancerIndex(s, d.id).None?
    requires d.email.Some? ==> !EmailHeld(s, d.email.value, None)
    requires UniqueBy(s.styles + styles, StyleKey)
    requires forall j :: 0 <= j < |styles| ==> styles[j].dancerId == d.id
    ensures Valid(DancerAdded(s, d, styles))
    ensures FindDancer(DancerAdded(s, d, styles), d.id) == Some(d)
    ensures Filter(DancerAdded(s, d, styles).styles, StyleOf(d.id)) == styles
  {
    var t := DancerAdded(s, d, styles);
    UniqueAppend(s.dancers, d, DancerKey);
    DancerAddedEmails(s, d, styles);
    DancerAddedForeignKeys(s, d, styles);
    FindDancerAt(t, |s.dancers|);
    forall i | 0 <= i < |s.styles| ensures !StyleOf(d.id)(s.styles[i]) {
      assert DancerIndex(s, s.styles[i].dancerId).Some?;
    }
    FilterNone(s.styles, StyleOf(d.id));
    FilterAll(styles, StyleOf(d.id));
    FilterConcat(s.styles, styles, StyleOf(d.id));
  }

  /** `UpdateAsync` on a dancer: the stored row with the same id is replaced. */
  function DancerUpdated(s: DancerState, d: Dancer): (r: DancerState)
    requires DancerIndex(s, d.id).Some?
    ensures r.dancers == s.dancers[DancerIndex(s, d.id).value := d] && r.styles == s.styles
  {
    s.(dancers := s.dancers[DancerIndex(s, d.id).value := d])
  }

  /** Replacing a dancer by one whose email no other dancer holds keeps the store valid. */
  lemma DancerUpdatedValid(s: DancerState, d: Dancer)
    requires Valid(s) && DancerIndex(s, d.id).Some?
    requires d.email.Some? ==> !EmailHeld(s, d.email.value, Some(d.id))
    ensures Valid(DancerUpdated(s, d))
    ensures StylesDistinct(s) ==> StylesDistinct(DancerUpdated(s, d))
    ensures FindDancer(DancerUpdated(s, d), d.id) == Some(d)
  {
    var k := DancerIndex(s, d.id).value;
    var t := DancerUpdated(s, d);
    UniqueUpdate(s.dancers, k, d, DancerKey);
    forall id | DancerIndex(s, id).Some? ensures DancerIndex(t, id).Some? {
      var m := DancerIndex(s, id).value;
      assert t.dancers[m].id == id;
    }
    forall i, j | 0 <= i < |t.dancers| && 0 <= j < |t.dancers| && i != j && t.dancers[i].email.Some?
      ensures t.dancers[i].email != t.dancers[j].email
    {
      if i == k {
        assert t.dancers[j] == s.dancers[j];
        IndexOfUniqueKey(s.dancers, DancerKey, j);
      } else if j == k {
        assert t.dancers[i] == s.dancers[i];
        IndexOfUniqueKey(s.dancers, DancerKey, i);
      }
    }
    FindDancerAt(t, k);
  }

  /** `DeleteAsync` on a dancer: the row goes, and its style entries with it. */
  function DancerDeleted(s: DancerState, d: Dancer): (r: DancerState)
    requires DancerIndex(s, d.id).Some?
    ensures r == WithoutDancer(s, DancerIndex(s, d.id).value)
  {
    WithoutDancer(s, DancerIndex(s, d.id).value)
  }

  /** Deleting a dancer keeps the store valid: it is no longer found and none of its entries remain. */
  lemma DancerDeletedValid(s: DancerState, d: Dancer)
    requires Valid(s) && DancerIndex(s, d.id).Some?
    ensures Valid(DancerDeleted(s, d))
    ensures StylesDistinct(s) ==> StylesDistinct(DancerDeleted(s, d))
    ensures FindDancer(DancerDeleted(s, d), d.id).None?
    ensures Filter(DancerDeleted(s, d).styles, StyleOf(d.id)) == []
    ensures forall x :: x in DancerDeleted(s, d).styles <==> x in s.styles && x.dancerId != d.id
  {
    var k := DancerIndex(s, d.id).value;
    WithoutDancerValid(s, k);
    FilterNone(DancerDeleted(s, d).styles, StyleOf(d.id));
  }

  // ---- style-entry writes (`_context.DancerStyles` and `SaveChangesAsync`) ----

  /** `DancerStyles.Add`: the entry is appended. */
  function StyleAdded(s: DancerState, x: DancerStyle): (r: DancerState)
    ensures r.styles == s.styles + [x] && r.dancers == s.dancers
  {
    s.(styles := s.styles + [x])
  }

  /** An entry with a fresh id for a stored dancer keeps the store valid; one for a style the dancer lacks keeps the styles distinct. */
  lemma StyleAddedValid(s: DancerState, x: DancerStyle)
    requires Valid(s) && StyleIndex(s, x.id).None? && DancerIndex(s, x.dancerId).Some?
    ensures Valid(StyleAdded(s, x))
    ensures StylesDistinct(s) && !HasStyleEntry(s.styles, x.dancerId, x.style) ==> StylesDistinct(StyleAdded(s, x))
  {
    var t := StyleAdded(s, x);
    UniqueAppend(s.styles, x, StyleKey);
    forall i | 0 <= i < |t.styles| ensures DancerIndex(t, t.styles[i].dancerId).Some? {
      if i < |s.styles| { assert t.styles[i] == s.styles[i]; }
    }
    if StylesDistinct(s) && !HasStyleEntry(s.styles, x.dancerId, x.style) {
      UniqueAppend(s.styles, x, StylePair);
    }
  }

  /** Saving a tracked entry: the stored row with the same id is replaced. */
  function StyleUpdated(s: DancerState, x: DancerStyle): (r: DancerState)
    requires StyleIndex(s, x.id).Some?
    ensures r.styles == s.styles[StyleIndex(s, x.id).value := x] && r.dancers == s.dancers
  {
    s.(styles := s.styles[StyleIndex(s, x.id).value := x])
  }

  /** Replacing an entry by one of the same dancer and style keeps the store valid and the styles distinct. */
  lemma StyleUpdatedValid(s: DancerState, x: DancerStyle)
    requires Valid(s) && StyleIndex(s, x.id).Some?
    requires StylePair(x) == StylePair(s.styles[StyleIndex(s, x.id).value])
    ensures Valid(StyleUpdated(s, x))
    ensures StylesDistinct(s) ==> StylesDistinct(StyleUpdated(s, x))
  {
    var i := StyleIndex(s, x.id).value;
    var t := StyleUpdated(s, x);
    UniqueUpdate(s.styles, i, x, StyleKey);
    if StylesDistinct(s) { UniqueUpdate(s.styles, i, x, StylePair); }
    forall j | 0 <= j < |t.styles| ensures DancerIndex(t, t.styles[j].dancerId).Some? {
      if j != i { assert t.styles[j] == s.styles[j]; }
    }
  }

  /** `DancerStyles.Remove`: the entry goes. */
  function StyleRemoved(s: DancerState, x: DancerStyle): (r: DancerState)
    requires StyleIndex(s, x.id).Some?
    ensures r.styles == RemoveAt(s.styles, StyleIndex(s, x.id).value) && r.dancers == s.dancers
  {
    s.(styles := RemoveAt(s.styles, StyleIndex(s, x.id).value))
  }

  /** Removing an entry keeps the store valid and the styles distinct. */
  lemma StyleRemovedValid(s: DancerState, x: DancerStyle)
    requires Valid(s) && StyleIndex(s, x.id).Some?
    ensures Valid(StyleRemoved(s, x))
    ensures StylesDistinct(s) ==> StylesDistinct(StyleRemoved(s, x))
  {
    var i := StyleIndex(s, x.id).value;
    var t := StyleRemoved(s, x);
    UniqueRemoveAt(s.styles, i, StyleKey);
    if StylesDistinct(s) { UniqueRemoveAt(s.styles, i, StylePair); }
    forall j | 0 <= j < |t.styles| ensures DancerIndex(t, t.styles[j].dancerId).Some? {
      var j' := if j < i then j else j + 1;
      assert t.styles[j] == s.styles[j'];
    }
  }

  // ---- the writes on the context ----

  /** `AddAsync` on a dancer with its new style entries. */
  method AddDancer(db: DancerDb, d: Dancer, styles: seq<DancerStyle>)
    modifies db
    ensures db.State() == DancerAdded(old(db.State()), d, styles)
  {
    db.dancers := db.dancers + [d];
    db.styles := db.styles + styles;
  }

  /** `UpdateAsync` on a dancer. */
  method UpdateDancer(db: DancerDb, d: Dancer)
    requires DancerIndex(db.State(), d.id).Some?
    modifies db
    ensures db.State() == DancerUpdated(old(db.State()), d)
  {
    var k := DancerIndex(db.State(), d.id).value;
    db.dancers := db.dancers[k := d];
  }

  /** `DeleteAsync` on a dancer, with the database's cascade to the style entries. */
  method DeleteDancer(db: DancerDb, d: Dancer)
    requires DancerIndex(db.State(), d.id).Some?
    modifies db
    ensures db.State() == DancerDeleted(old(db.State()), d)
  {
    var k := DancerIndex(db.State(), d.id).value;
    db.styles := Filter(db.styles, NotOfDancer(db.dancers[k].id));
    db.dancers := RemoveAt(db.dancers, k);
  }

  method AddStyle(db: DancerDb, x: DancerStyle)
    modifies db
    ensures db.State() == StyleAdded(old(db.State()), x)
  {
    db.styles := db.styles + [x];
  }

  method UpdateStyle(db: DancerDb, x: DancerStyle)
    requires StyleIndex(db.State(), x.id).Some?
    modifies db
    ensures db.State() == StyleUpdated(old(db.State()), x)
  {
    var i := StyleIndex(db.State(), x.id).value;
    db.styles := db.styles[i := x];
  }

  method RemoveStyle(db: DancerDb, x: DancerStyle)
    requires StyleIndex(db.State(), x.id).Some?
    modifies db
    ensures db.State() == StyleRemoved(old(db.State()), x)
  {
    var i := StyleIndex(db.State(), x.id).value;
    db.styles := RemoveAt(db.styles, i);
  }
}

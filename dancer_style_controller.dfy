// The style endpoints under one dancer: list its entries, add one for a style it lacks,
// update or remove the entry for a style named in the route.

module DancerStyleController {
  import opened Common
  import opened Seqs
  import opened DancerModel
  import opened DancerDtos
  import opened DancerData
  import opened DancerRepository
  import opened DancerController

  function IsStyle(style: DanceStyle): DancerStyle -> bool {
    (x: DancerStyle) => x.style == style
  }

  /** `dancer.DanceStyles.FirstOrDefault(ds => ds.Style == style)` over the loaded entries. */
  function EntryFor(styles: seq<DancerStyle>, style: DanceStyle): (r: Option<DancerStyle>)
    ensures r.Some? ==> r.value in styles && r.value.style == style
    ensures r.None? <==> forall i :: 0 <= i < |styles| ==> styles[i].style != style
  {
    FirstOrNone(styles, IsStyle(style))
  }

  /** On a dancer's loaded entries, finding the style is the table-wide `HasStyleEntry`. */
  lemma EntryForIsStyleEntry(s: DancerState, id: Guid, style: DanceStyle)
    ensures EntryFor(StylesOf(s, id), style).Some? <==> HasStyleEntry(s.styles, id, style)
  {
    var loaded := StylesOf(s, id);
    if HasStyleEntry(s.styles, id, style) {
      var i :| 0 <= i < |s.styles| && s.styles[i].dancerId == id && s.styles[i].style == style;
      assert s.styles[i] in loaded;
    }
    if EntryFor(loaded, style).Some? {
      var x := EntryFor(loaded, style).value;
      var i :| 0 <= i < |s.styles| && s.styles[i] == x;
      assert s.styles[i].dancerId == id && s.styles[i].style == style;
    }
  }

  // ---- GetDancerStyles ----

  /** `GetDancerStyles`: the dancer's entries in storage order, as DTOs. */
  function GetDancerStyles(s: DancerState, dancerId: Guid): (r: ActionResult<seq<DancerStyleDto>>)
    ensures r.NotFound? <==> FindDancer(s, dancerId).None?
    ensures r.NotFound? ==> r.reason == DancerNotFound
    ensures r.NotFound? || r.Ok?
    ensures r.Ok? ==> |r.value| == |StylesOf(s, dancerId)|
    ensures r.Ok? ==> forall i :: 0 <= i < |r.value| ==> r.value[i] == StyleDtoOf(StylesOf(s, dancerId)[i])
  {
    match GetByIdWithDetails(s, dancerId)
    case None => NotFound(DancerNotFound)
    case Some(x) => Ok(MapStyles(x.styles))
  }

  // ---- AddDancerStyle ----

  /** The entry built from the body, for the dancer in the route. */
  function NewStyleEntry(id: Guid, dancerId: Guid, d: DancerStyleDto, now: DateTime, user: Option<string>): (r: DancerStyle)
    ensures StyleDtoOf(r) == d && r.dancerId == dancerId && r.id == id
  {
    DancerStyle(id, dancerId, d.style, d.proficiencyLevel, d.yearsOfExperience, d.notes, NewAudit(now, user))
  }

  /** `AddDancerStyle`; `newId` is the generated id of the entry. The response echoes the body. */
  function AddDancerStyleStep(s: DancerState, dancerId: Guid, d: DancerStyleDto, newId: Guid, now: DateTime, user: Option<string>)
    : (r: Step<DancerState, DancerStyleDto>)
    ensures FindDancer(s, dancerId).None? <==> r == Step(s, NotFound(DancerNotFound))
    ensures r.result.BadRequest? <==> FindDancer(s, dancerId).Some? && HasStyleEntry(s.styles, dancerId, d.style)
    ensures r.result.BadRequest? ==> r == Step(s, BadRequest(StyleExists))
    ensures r.result.IsSuccess() || r.result.NotFound? || r.result.BadRequest?
    ensures r.result.IsSuccess() ==>
      r.state == StyleAdded(s, NewStyleEntry(newId, dancerId, d, now, user)) && r.result == Created(d)
  {
    EntryForIsStyleEntry(s, dancerId, d.style);
    match GetByIdWithDetails(s, dancerId)
    case None => Step(s, NotFound(DancerNotFound))
    case Some(details) =>
      if EntryFor(details.styles, d.style).Some? then Step(s, BadRequest(StyleExists))
      else Step(StyleAdded(s, NewStyleEntry(newId, dancerId, d, now, user)), Created(d))
  }

  /** An added entry keeps the store valid and the styles distinct, and the dancer's list gains exactly the body at its end. */
  lemma AddDancerStyleValid(s: DancerState, dancerId: Guid, d: DancerStyleDto, newId: Guid, now: DateTime, user: Option<string>)
    requires Valid(s) && StyleIndex(s, newId).None?
    requires AddDancerStyleStep(s, dancerId, d, newId, now, user).result.IsSuccess()
    ensures var t := AddDancerStyleStep(s, dancerId, d, newId, now, user).state;
      Valid(t) && (StylesDistinct(s) ==> StylesDistinct(t)) &&
      GetDancerStyles(t, dancerId) == Ok(GetDancerStyles(s, dancerId).value + [d])
  {
    var x := NewStyleEntry(newId, dancerId, d, now, user);
    StyleAddedValid(s, x);
    AddedEntryListed(s, x);
    var before, after := GetDancerStyles(s, dancerId).value, GetDancerStyles(StyleAdded(s, x), dancerId).value;
    assert after == before + [d];
  }

  lemma AddedEntryListed(s: DancerState, x: DancerStyle)
    ensures StylesOf(StyleAdded(s, x), x.dancerId) == StylesOf(s, x.dancerId) + [x]
  {
    FilterConcat(s.styles, [x], StyleOf(x.dancerId));
    assert Filter([x], StyleOf(x.dancerId)) == [x] + Filter([], StyleOf(x.dancerId));
  }

  /** Once a style is added, adding it again for the same dancer is refused. */
  lemma AddDancerStyleTwiceRefused(s: DancerState, dancerId: Guid, d: DancerStyleDto, d': DancerStyleDto, newId: Guid, newId': Guid,
                                   now: DateTime, user: Option<string>)
    requires AddDancerStyleStep(s, dancerId, d, newId, now, user).result.IsSuccess()
    requires d'.style == d.style
    ensures AddDancerStyleStep(AddDancerStyleStep(s, dancerId, d, newId, now, user).state, dancerId, d', newId', now, user)
      == Step(AddDancerStyleStep(s, dancerId, d, newId, now, user).state, BadRequest(StyleExists))
  {
    var t := AddDancerStyleStep(s, dancerId, d, newId, now, user).state;
    assert t.styles[|s.styles|] == NewStyleEntry(newId, dancerId, d, now, user);
  }

  // ---- UpdateDancerStyle ----

  /** The entry after the update: proficiency, years and notes from the body (null notes clear them), the audit stamped. */
  function UpdatedEntry(x: DancerStyle, d: DancerStyleDto, now: DateTime, user: Option<string>): (r: DancerStyle)
    ensures r.id == x.id && StylePair(r) == StylePair(x)
    ensures StyleDtoOf(r) == d.(style := x.style)
  {
    x.(proficiencyLevel := d.proficiencyLevel, yearsOfExperience := d.yearsOfExperience, notes := d.notes,
       audit := Touch(x.audit, now, user))
  }

  /** The stored entry the update and removal act on, when the dancer and the style are found. */
  function RouteEntry(s: DancerState, dancerId: Guid, style: DanceStyle): (r: Option<DancerStyle>)
    ensures r.Some? ==> r.value in s.styles && r.value.dancerId == dancerId && r.value.style == style
    ensures r.Some? ==> StyleIndex(s, r.value.id).Some?
    ensures r.None? <==> FindDancer(s, dancerId).None? || !HasStyleEntry(s.styles, dancerId, style)
  {
    EntryForIsStyleEntry(s, dancerId, style);
    match GetByIdWithDetails(s, dancerId)
    case None => None
    case Some(details) =>
      var e := EntryFor(details.styles, style);
      e
  }

  /** `UpdateDancerStyle`; the response echoes the body, whose style may differ from the one in the route. */
  function UpdateDancerStyleStep(s: DancerState, dancerId: Guid, style: DanceStyle, d: DancerStyleDto, now: DateTime, user: Option<string>)
    : (r: Step<DancerState, DancerStyleDto>)
    ensures FindDancer(s, dancerId).None? ==> r == Step(s, NotFound(DancerNotFound))
    ensures FindDancer(s, dancerId).Some? && !HasStyleEntry(s.styles, dancerId, style) ==> r == Step(s, NotFound(StyleNotFound))
    ensures r.result.IsSuccess() <==> RouteEntry(s, dancerId, style).Some?
    ensures r.result.IsSuccess() ==> r.result == Ok(d)
    ensures r.result.IsSuccess() ==>
      r.state == StyleUpdated(s, UpdatedEntry(RouteEntry(s, dancerId, style).value, d, now, user))
  {
    match GetByIdWithDetails(s, dancerId)
    case None => Step(s, NotFound(DancerNotFound))
    case Some(_) =>
      match RouteEntry(s, dancerId, style)
      case None => Step(s, NotFound(StyleNotFound))
      case Some(x) => Step(StyleUpdated(s, UpdatedEntry(x, d, now, user)), Ok(d))
  }

  /** An update keeps the store valid and the styles distinct. */
  lemma UpdateDancerStyleValid(s: DancerState, dancerId: Guid, style: DanceStyle, d: DancerStyleDto, now: DateTime, user: Option<string>)
    requires Valid(s)
    requires UpdateDancerStyleStep(s, dancerId, style, d, now, user).result.IsSuccess()
    ensures var t := UpdateDancerStyleStep(s, dancerId, style, d, now, user).state;
      Valid(t) && (StylesDistinct(s) ==> StylesDistinct(t))
  {
    var x := RouteEntry(s, dancerId, style).value;
    var i :| 0 <= i < |s.styles| && s.styles[i] == x;
    IndexOfUniqueKey(s.styles, StyleKey, i);
    StyleUpdatedValid(s, UpdatedEntry(x, d, now, user));
  }

  /** An update changes one row, the route's entry, which keeps its id, dancer and style and takes the body's other data. */
  lemma UpdateDancerStyleChangesOneRow(s: DancerState, dancerId: Guid, style: DanceStyle, d: DancerStyleDto, now: DateTime, user: Option<string>)
    requires UpdateDancerStyleStep(s, dancerId, style, d, now, user).result.IsSuccess()
    ensures var t := UpdateDancerStyleStep(s, dancerId, style, d, now, user).state;
      var k := StyleIndex(s, RouteEntry(s, dancerId, style).value.id).value;
      t.dancers == s.dancers && |t.styles| == |s.styles| &&
      (forall j :: 0 <= j < |s.styles| && j != k ==> t.styles[j] == s.styles[j]) &&
      t.styles[k].id == s.styles[k].id && t.styles[k].dancerId == dancerId && t.styles[k].style == style &&
      t.styles[k].proficiencyLevel == d.proficiencyLevel && t.styles[k].yearsOfExperience == d.yearsOfExperience &&
      t.styles[k].notes == d.notes
  {
    var x := RouteEntry(s, dancerId, style).value;
    var y := UpdatedEntry(x, d, now, user);
    var k := StyleIndex(s, x.id).value;
    assert StyleUpdated(s, y).styles[k] == y;
  }

  // ---- RemoveDancerStyle ----

  /** `RemoveDancerStyle` */
  function RemoveDancerStyleStep(s: DancerState, dancerId: Guid, style: DanceStyle): (r: Step<DancerState, bool>)
    ensures FindDancer(s, dancerId).None? ==> r == Step(s, NotFound(DancerNotFound))
    ensures FindDancer(s, dancerId).Some? && !HasStyleEntry(s.styles, dancerId, style) ==> r == Step(s, NotFound(StyleNotFound))
    ensures r.result.IsSuccess() <==> RouteEntry(s, dancerId, style).Some?
    ensures r.result.IsSuccess() ==> r.result == Ok(true) && r.state == StyleRemoved(s, RouteEntry(s, dancerId, style).value)
  {
    match GetByIdWithDetails(s, dancerId)
    case None => Step(s, NotFound(DancerNotFound))
    case Some(_) =>
      match RouteEntry(s, dancerId, style)
      case None => Step(s, NotFound(StyleNotFound))
      case Some(x) => Step(StyleRemoved(s, x), Ok(true))
  }

  /** A removal keeps the store valid and drops one row; with distinct styles the dancer no longer has the style, so it can be added again. */
  lemma RemoveDancerStyleValid(s: DancerState, dancerId: Guid, style: DanceStyle)
    requires Valid(s)
    requires RemoveDancerStyleStep(s, dancerId, style).result.IsSuccess()
    ensures var t := RemoveDancerStyleStep(s, dancerId, style).state;
      Valid(t) && t.dancers == s.dancers && |t.styles| == |s.styles| - 1 &&
      (StylesDistinct(s) ==> StylesDistinct(t) && !HasStyleEntry(t.styles, dancerId, style))
  {
    var x := RouteEntry(s, dancerId, style).value;
    var k := StyleIndex(s, x.id).value;
    var i :| 0 <= i < |s.styles| && s.styles[i] == x;
    IndexOfUniqueKey(s.styles, StyleKey, i);
    StyleRemovedValid(s, x);
    var t := StyleRemoved(s, x);
    if StylesDistinct(s) {
      forall j | 0 <= j < |t.styles| ensures !(t.styles[j].dancerId == dancerId && t.styles[j].style == style) {
        var j' := if j < k then j else j + 1;
        assert t.styles[j] == s.styles[j'] && j' != k;
        assert StylePair(s.styles[j']) != StylePair(s.styles[k]);
      }
    }
  }

  // ---- the actions on the context ----

  /** `AddDancerStyle` */
  method AddDancerStyle(db: DancerDb, dancerId: Guid, d: DancerStyleDto, newId: Guid, now: DateTime, user: Option<string>)
    returns (result: ActionResult<DancerStyleDto>)
    modifies db
    ensures Step(db.State(), result) == AddDancerStyleStep(old(db.State()), dancerId, d, newId, now, user)
  {
    var details := GetByIdWithDetails(db.State(), dancerId);
    if details.None? {
      return NotFound(DancerNotFound);
    }
    if EntryFor(details.value.styles, d.style).Some? {
      return BadRequest(StyleExists);
    }
    AddStyle(db, NewStyleEntry(newId, dancerId, d, now, user));
    return Created(d);
  }

  /** `UpdateDancerStyle`: the tracked entry's three fields and audit columns are assigned, then saved. */
  method UpdateDancerStyle(db: DancerDb, dancerId: Guid, style: DanceStyle, d: DancerStyleDto, now: DateTime, user: Option<string>)
    returns (result: ActionResult<DancerStyleDto>)
    modifies db
    ensures Step(db.State(), result) == UpdateDancerStyleStep(old(db.State()), dancerId, style, d, now, user)
  {
    var details := GetByIdWithDetails(db.State(), dancerId);
    if details.None? {
      return NotFound(DancerNotFound);
    }
    var entry := RouteEntry(db.State(), dancerId, style);
    if entry.None? {
      return NotFound(StyleNotFound);
    }
    var x := entry.value;
    x := x.(proficiencyLevel := d.proficiencyLevel);
    x := x.(yearsOfExperience := d.yearsOfExperience);
    x := x.(notes := d.notes);
    x := x.(audit := Touch(x.audit, now, user));
    assert x == UpdatedEntry(entry.value, d, now, user);
    UpdateStyle(db, x);
    return Ok(d);
  }

  /** `RemoveDancerStyle` */
  method RemoveDancerStyle(db: DancerDb, dancerId: Guid, style: DanceStyle) returns (result: ActionResult<bool>)
    modifies db
    ensures Step(db.State(), result) == RemoveDancerStyleStep(old(db.State()), dancerId, style)
  {
    var details := GetByIdWithDetails(db.State(), dancerId);
    if details.None? {
      return NotFound(DancerNotFound);
    }
    var entry := RouteEntry(db.State(), dancerId, style);
    if entry.None? {
      return NotFound(StyleNotFound);
    }
    RemoveStyle(db, entry.value);
    return Ok(true);
  }
}

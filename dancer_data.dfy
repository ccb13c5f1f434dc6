// The Dancer service's database context: its two tables, the primary keys, the unique
// email index, the foreign key from a style entry to its dancer, and the cascading delete.

module DancerData {
  import opened Common
  import opened Seqs
  import opened DancerModel

  /** The rows of `Dancer_Dancers` and `Dancer_DancerStyles`, in storage order. */
  datatype DancerState = DancerState(dancers: seq<Dancer>, styles: seq<DancerStyle>)

  function DancerKey(d: Dancer): Guid { d.id }
  function StyleKey(x: DancerStyle): Guid { x.id }

  /** The pair a dancer should hold at most once; no index backs it. */
  function StylePair(x: DancerStyle): (Guid, DanceStyle) { (x.dancerId, x.style) }

  function DancerIndex(s: DancerState, id: Guid): Option<nat> { IndexOfKey(s.dancers, DancerKey, id) }
  function StyleIndex(s: DancerState, id: Guid): Option<nat> { IndexOfKey(s.styles, StyleKey, id) }

  /** `FindAsync(id)` on the dancers. */
  function FindDancer(s: DancerState, id: Guid): (r: Option<Dancer>)
    ensures r.Some? ==> r.value in s.dancers && r.value.id == id
    ensures r.None? <==> forall j :: 0 <= j < |s.dancers| ==> s.dancers[j].id != id
  {
    match DancerIndex(s, id)
    case None => None
    case Some(k) => Some(s.dancers[k])
  }

  /** The style entries of dancer `id`. */
  function StyleOf(id: Guid): DancerStyle -> bool {
    (x: DancerStyle) => x.dancerId == id
  }

  /** The unique index on `Email`: two stored dancers never share a non-null email; any number may have none. */
  predicate EmailsUnique(s: DancerState) {
    forall i, j :: 0 <= i < |s.dancers| && 0 <= j < |s.dancers| && i != j && s.dancers[i].email.Some? ==>
      s.dancers[i].email != s.dancers[j].email
  }

  /** Every style entry belongs to a stored dancer. */
  predicate ForeignKeys(s: DancerState) {
    forall i :: 0 <= i < |s.styles| ==> DancerIndex(s, s.styles[i].dancerId).Some?
  }

  /** The constraints the database enforces. */
  predicate Valid(s: DancerState) {
    UniqueBy(s.dancers, DancerKey) && UniqueBy(s.styles, StyleKey) && EmailsUnique(s) && ForeignKeys(s)
  }

  /** At most one entry per dancer and style: kept by the style endpoints, not by the database. */
  predicate StylesDistinct(s: DancerState) {
    UniqueBy(s.styles, StylePair)
  }

  function EmptyStore(): DancerState {
    DancerState([], [])
  }

  lemma EmptyStoreValid()
    ensures Valid(EmptyStore()) && StylesDistinct(EmptyStore())
    ensures FindDancer(EmptyStore(), Guid(0)).None?
  {
  }

  /** Under a valid store the lookup by id finds the one row with that id. */
  lemma FindDancerAt(s: DancerState, k: nat)
    requires UniqueBy(s.dancers, DancerKey) && k < |s.dancers|
    ensures DancerIndex(s, s.dancers[k].id) == Some(k)
    ensures FindDancer(s, s.dancers[k].id) == Some(s.dancers[k])
  {
    IndexOfUniqueKey(s.dancers, DancerKey, k);
  }

  /** A dancer kept at its position, or moved behind new rows, is still found. */
  lemma DancersPrefixKept(s: DancerState, t: DancerState)
    requires |s.dancers| <= |t.dancers|
    requires forall j :: 0 <= j < |s.dancers| ==> t.dancers[j].id == s.dancers[j].id
    ensures forall id :: DancerIndex(s, id).Some? ==> DancerIndex(t, id).Some?
  {
    forall id | DancerIndex(s, id).Some? ensures DancerIndex(t, id).Some? {
      var k := DancerIndex(s, id).value;
      assert t.dancers[k].id == id;
    }
  }

  // ---- the cascading delete (OnDelete(DeleteBehavior.Cascade)) ----

  function NotOfDancer(id: Guid): DancerStyle -> bool {
    (x: DancerStyle) => x.dancerId != id
  }

  /** The store after the dancer at `k` is deleted: the style entries go with it. */
  function WithoutDancer(s: DancerState, k: nat): DancerState
    requires k < |s.dancers|
  {
    DancerState(RemoveAt(s.dancers, k), Filter(s.styles, NotOfDancer(s.dancers[k].id)))
  }

  lemma WithoutDancerEmails(s: DancerState, k: nat)
    requires EmailsUnique(s) && k < |s.dancers|
    ensures EmailsUnique(WithoutDancer(s, k))
  {
    var t := WithoutDancer(s, k);
    forall i, j | 0 <= i < |t.dancers| && 0 <= j < |t.dancers| && i != j && t.dancers[i].email.Some?
      ensures t.dancers[i].email != t.dancers[j].email
    {
      var i' := if i < k then i else i + 1;
      var j' := if j < k then j else j + 1;
      assert t.dancers[i] == s.dancers[i'] && t.dancers[j] == s.dancers[j'];
    }
  }

  lemma WithoutDancerForeignKeys(s: DancerState, k: nat)
    requires Valid(s) && k < |s.dancers|
    ensures ForeignKeys(WithoutDancer(s, k))
  {
    var t := WithoutDancer(s, k);
    forall i | 0 <= i < |t.styles| ensures DancerIndex(t, t.styles[i].dancerId).Some? {
      var x := t.styles[i];
      assert x in s.styles && x.dancerId != s.dancers[k].id;
      var m :| 0 <= m < |s.styles| && s.styles[m] == x;
      var di := DancerIndex(s, x.dancerId).value;
      var di' := if di < k then di else di - 1;
      assert di != k;
      assert t.dancers[di'] == s.dancers[di];
    }
  }

  /** Deleting a dancer keeps the store valid, keeps styles distinct, and leaves no entry pointing at the dancer. */
  lemma WithoutDancerValid(s: DancerState, k: nat)
    requires Valid(s) && k < |s.dancers|
    ensures Valid(WithoutDancer(s, k))
    ensures StylesDistinct(s) ==> StylesDistinct(WithoutDancer(s, k))
    ensures FindDancer(WithoutDancer(s, k), s.dancers[k].id).None?
    ensures forall j :: 0 <= j < |WithoutDancer(s, k).styles| ==> WithoutDancer(s, k).styles[j].dancerId != s.dancers[k].id
  {
    var t := WithoutDancer(s, k);
    var id := s.dancers[k].id;
    UniqueRemoveAt(s.dancers, k, DancerKey);
    UniqueFilter(s.styles, NotOfDancer(id), StyleKey);
    if StylesDistinct(s) { UniqueFilter(s.styles, NotOfDancer(id), StylePair); }
    WithoutDancerEmails(s, k);
    WithoutDancerForeignKeys(s, k);
    forall j | 0 <= j < |t.dancers| ensures t.dancers[j].id != id {
      var j' := if j < k then j else j + 1;
      assert t.dancers[j] == s.dancers[j'];
    }
  }

  /** The database context, holding each table's rows. */
  class DancerDb {
    var dancers: seq<Dancer>
    var styles: seq<DancerStyle>

    function State(): DancerState
      reads this
    {
      DancerState(dancers, styles)
    }

    constructor ()
      ensures State() == EmptyStore()
    {
      dancers, styles := [], [];
    }
  }
}

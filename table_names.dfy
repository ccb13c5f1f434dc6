// The table-name prefix each service's database context applies to every entity
// so that the two services can share one database.

module TableNames {
  import opened Common

  const CoursePrefix: string := "Course_"
  const DancerPrefix: string := "Dancer_"

  /**
   * An ordinal prefix test. The source's `StartsWith(string)` compares by the current culture,
   * which differs only for names holding ignorable characters such as a soft hyphen.
   */
  predicate StartsWith(s: string, prefix: string) {
    |prefix| <= |s| && s[..|prefix|] == prefix
  }

  /** The table name an entity ends up with: prefixed unless null or already prefixed. */
  function Prefixed(name: Option<string>, prefix: string): (r: Option<string>)
    ensures r.None? <==> name.None?
    ensures r.Some? ==> StartsWith(r.value, prefix)
    ensures name.Some? && !StartsWith(name.value, prefix) ==> r.value[|prefix|..] == name.value
    ensures name.Some? && StartsWith(name.value, prefix) ==> r == name
  {
    match name
    case None => None
    case Some(n) =>
      if StartsWith(n, prefix) then name
      else
        assert (prefix + n)[..|prefix|] == prefix;
        Some(prefix + n)
  }

  /** Configuring the names twice gives the same names as configuring them once. */
  lemma PrefixedIdempotent(name: Option<string>, prefix: string)
    ensures Prefixed(Prefixed(name, prefix), prefix) == Prefixed(name, prefix)
  {
  }

  /** Different unprefixed names stay different once prefixed. */
  lemma PrefixedInjective(a: string, b: string, prefix: string)
    requires !StartsWith(a, prefix) && !StartsWith(b, prefix)
    requires Prefixed(Some(a), prefix) == Prefixed(Some(b), prefix)
    ensures a == b
  {
  }

  /** An entity already named with the prefix collides with one named without it. */
  lemma PrefixCollision()
    ensures Prefixed(Some("Course_Sessions"), CoursePrefix) == Prefixed(Some("Sessions"), CoursePrefix)
  {
    assert StartsWith("Course_Sessions", CoursePrefix);
    assert "Sessions"[..|CoursePrefix|][0] != CoursePrefix[0];
    assert CoursePrefix + "Sessions" == "Course_Sessions";
  }

  /**
   * `OnModelCreating`'s loop over the entity types: each non-null table name that does not
   * already start with the prefix is replaced by the prefixed name.
   */
  method PrefixTableNames(tables: array<Option<string>>, prefix: string)
    modifies tables
    ensures forall i :: 0 <= i < tables.Length ==> tables[i] == Prefixed(old(tables[i]), prefix)
  {
    for i := 0 to tables.Length
      invariant forall j :: 0 <= j < i ==> tables[j] == Prefixed(old(tables[j]), prefix)
      invariant forall j :: i <= j < tables.Length ==> tables[j] == old(tables[j])
    {
      var tableName := tables[i];
      if tableName.Some? && !StartsWith(tableName.value, prefix) {
        tables[i] := Some(prefix + tableName.value);
      }
    }
  }
}

// The identity user of the authentication service and the name shown for it.

module ApplicationUser {
  import opened Common
  import opened StringExtensions

  /** The profile columns of `ApplicationUser` that its display name reads. */
  datatype ApplicationUser = ApplicationUser(userName: Option<string>, firstName: Option<string>,
                                             lastName: Option<string>)
  {
    /**
     * `DisplayName`: the user name (or "User") when no first name is set, otherwise
     * "First Last", where a null last name interpolates as nothing.
     */
    function DisplayName(): string {
      if IsNullOrEmpty(firstName) then userName.GetOr("User")
      else firstName.value + " " + lastName.GetOr("")
    }
  }

  /** With a first name, the display name is that name, a space, and the last name. */
  lemma DisplayNameWithFirstName(u: ApplicationUser)
    requires !IsNullOrEmpty(u.firstName)
    ensures var d := u.DisplayName();
            |d| == |u.firstName.value| + 1 + |u.lastName.GetOr("")| &&
            d[..|u.firstName.value|] == u.firstName.value &&
            d[|u.firstName.value|] == ' ' &&
            d[|u.firstName.value| + 1..] == u.lastName.GetOr("")
  {
    var f := u.firstName.value;
    var d := u.DisplayName();
    assert d == f + (" " + u.lastName.GetOr(""));
  }

  /** Without a first name the last name is never shown, and "User" stands in for a missing user name. */
  lemma DisplayNameWithoutFirstName(u: ApplicationUser, otherLast: Option<string>)
    requires IsNullOrEmpty(u.firstName)
    ensures u.DisplayName() == u.(lastName := otherLast).DisplayName()
    ensures u.userName.None? ==> u.DisplayName() == "User"
    ensures u.userName.Some? ==> u.DisplayName() == u.userName.value
  {
  }

  /** A first name with a null last name still ends in the separating space. */
  lemma DisplayNameNullLastName(first: string)
    requires |first| > 0
    ensures ApplicationUser(None, Some(first), None).DisplayName() == first + " "
  {
  }
}

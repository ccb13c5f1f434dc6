// String helpers shared by the services: whitespace tests, an ASCII lower-casing
// used by the searches, URL slugs, truncation and the e-mail format check.

module StringExtensions {
  import opened Common
  import opened Seqs

  /** `char.IsWhiteSpace`, which is also the set the regular-expression class `\s` denotes. */
  predicate IsWhiteSpace(c: char) {
    ('\U{0009}' <= c <= '\U{000D}') || c == ' ' || c == '\U{0085}' || c == '\U{00A0}' ||
    c == '\U{1680}' || ('\U{2000}' <= c <= '\U{200A}') || c == '\U{2028}' || c == '\U{2029}' ||
    c == '\U{202F}' || c == '\U{205F}' || c == '\U{3000}'
  }

  /** `string.IsNullOrEmpty` */
  predicate IsNullOrEmpty(s: Option<string>) {
    s.None? || |s.value| == 0
  }

  /** `string.IsNullOrWhiteSpace` */
  predicate IsNullOrWhiteSpace(s: Option<string>) {
    s.None? || forall i :: 0 <= i < |s.value| ==> IsWhiteSpace(s.value[i])
  }

  lemma EmptyIsWhiteSpace(s: Option<string>)
    ensures IsNullOrEmpty(s) ==> IsNullOrWhiteSpace(s)
    ensures s.Some? && s.value == " " ==> IsNullOrWhiteSpace(s) && !IsNullOrEmpty(s)
  {
  }

  /** The capitals the model lower-cases: the ASCII ones and the Latin-1 ones (U+00C0 to U+00DE, without U+00D7). */
  predicate IsUpper(c: char) {
    ('A' <= c <= 'Z') || ('\U{00C0}' <= c <= '\U{00DE}' && c != '\U{00D7}')
  }

  /** Lower-casing of one character: each of these capitals moves 32 code points down the table to its small letter. */
  function LowerChar(c: char): (r: char)
    ensures !IsUpper(r)
    ensures !IsUpper(c) ==> r == c
    ensures IsUpper(c) ==> r as int == c as int + 32
  {
    if IsUpper(c) then (c as int + 32) as char else c
  }

  /** `ToLower()` / `ToLowerInvariant()` / SQL `lower()`, on the ASCII and Latin-1 capitals. */
  function ToLower(s: string): (r: string)
    ensures |r| == |s|
    ensures forall i :: 0 <= i < |s| ==> r[i] == LowerChar(s[i])
  {
    seq(|s|, i requires 0 <= i < |s| => LowerChar(s[i]))
  }

  lemma ToLowerIdempotent(s: string)
    ensures ToLower(ToLower(s)) == ToLower(s)
  {
  }

  /** `hay.Contains(needle)`: `needle` occurs in `hay` at some position. */
  predicate Contains(hay: string, needle: string) {
    if |needle| > |hay| then false
    else hay[..|needle|] == needle || (|hay| > 0 && Contains(hay[1..], needle))
  }

  /** `hay.ToLower().Contains(term.ToLower())`, the match every search box uses. */
  predicate ContainsIgnoreCase(hay: string, term: string) {
    Contains(ToLower(hay), ToLower(term))
  }

  /** A search does not depend on the case of the term. */
  lemma SearchIgnoresTermCase(hay: string, term: string)
    ensures ContainsIgnoreCase(hay, ToLower(term)) == ContainsIgnoreCase(hay, term)
  {
    ToLowerIdempotent(term);
  }

  /** A non-empty term never matches a shorter text; the empty term matches everything. */
  lemma ContainsBounds(hay: string, term: string)
    ensures |term| > |hay| ==> !ContainsIgnoreCase(hay, term)
    ensures |term| == 0 ==> ContainsIgnoreCase(hay, term)
  {
    if |term| == 0 {
      assert ToLower(hay)[..0] == ToLower(term);
    }
  }

  /** An accented capital folds to its small letter, so "élan" is found under "ÉLAN". */
  lemma AccentedCapitalFolds()
    ensures ToLower("\U{00C9}LAN") == "\U{00E9}lan"
    ensures ContainsIgnoreCase("\U{00E9}lan", "\U{00C9}LAN")
  {
    assert ToLower("\U{00E9}lan") == "\U{00E9}lan";
    assert ToLower("\U{00E9}lan")[..4] == ToLower("\U{00C9}LAN");
  }

  // ---- ToSlug ----

  /** The combining diacritical marks (U+0300 to U+036F), all of category NonSpacingMark. */
  predicate IsNonSpacingMark(c: char) {
    '\U{0300}' <= c <= '\U{036F}'
  }

  /**
   * The texts the slug model covers: ASCII characters and combining marks. On these the
   * decomposition (FormD) and recomposition (FormC) steps change nothing.
   */
  predicate SlugSource(s: string) {
    forall i :: 0 <= i < |s| ==> s[i] < '\U{0080}' || IsNonSpacingMark(s[i])
  }

  function StripMarks(s: string): seq<char> {
    Filter(s, (c: char) => !IsNonSpacingMark(c))
  }

  /** `Replace(" ", "-")` */
  function SpacesToHyphens(s: string): (r: string)
    ensures |r| == |s|
    ensures forall i :: 0 <= i < |s| ==> r[i] == (if s[i] == ' ' then '-' else s[i])
  {
    seq(|s|, i requires 0 <= i < |s| => if s[i] == ' ' then '-' else s[i])
  }

  /** The characters the class `[^a-z0-9\s-]` does not remove. */
  predicate IsSlugChar(c: char) {
    ('a' <= c <= 'z') || ('0' <= c <= '9') || IsWhiteSpace(c) || c == '-'
  }

  /** `Regex.Replace(slug, @"[^a-z0-9\s-]", "")` */
  function RemoveSpecial(s: string): seq<char> {
    Filter(s, IsSlugChar)
  }

  predicate NoDoubleHyphen(s: string) {
    forall i :: 0 <= i < |s| - 1 ==> !(s[i] == '-' && s[i + 1] == '-')
  }

  /** `Regex.Replace(slug, "-+", "-")`: each run of hyphens becomes one hyphen. */
  function CollapseHyphens(s: string): (r: string)
    ensures NoDoubleHyphen(r)
    ensures |r| <= |s|
    ensures |s| > 0 ==> |r| > 0 && r[0] == s[0] && r[|r| - 1] == s[|s| - 1]
    ensures forall c :: c in r ==> c in s
    ensures NoDoubleHyphen(s) ==> r == s
  {
    if |s| <= 1 then s
    else if s[0] == '-' && s[1] == '-' then CollapseHyphens(s[1..])
    else
      var rest := CollapseHyphens(s[1..]);
      assert forall c :: c in s[1..] ==> c in s;
      [s[0]] + rest
  }

  /** `Trim('-')`: the text without its leading and trailing hyphens. */
  function TrimHyphens(s: string): (r: string)
    ensures |r| > 0 ==> r[0] != '-' && r[|r| - 1] != '-'
    ensures exists a, b :: 0 <= a <= b <= |s| && r == s[a..b]
    ensures (|s| == 0 || (s[0] != '-' && s[|s| - 1] != '-')) ==> r == s
  {
    if |s| == 0 then
      assert s == s[0..0];
      s
    else if s[0] == '-' then
      var r := TrimHyphens(s[1..]);
      var a, b :| 0 <= a <= b <= |s[1..]| && r == s[1..][a..b];
      assert r == s[a + 1..b + 1];
      r
    else if s[|s| - 1] == '-' then
      var r := TrimHyphens(s[..|s| - 1]);
      var a, b :| 0 <= a <= b <= |s[..|s| - 1]| && r == s[..|s| - 1][a..b];
      assert r == s[a..b];
      r
    else
      assert s == s[0..|s|];
      s
  }

  /** What `ToSlug` returns for `text` (a null text gives the empty slug). */
  function SlugOf(text: Option<string>): string {
    if IsNullOrEmpty(text) then ""
    else TrimHyphens(CollapseHyphens(RemoveSpecial(SpacesToHyphens(ToLower(StripMarks(text.value))))))
  }

  /**
   * `ToSlug`: drops the non-spacing marks of the decomposed text one character at a time,
   * then lower-cases, turns spaces into hyphens, removes the other characters,
   * collapses and trims the hyphens.
   */
  method ToSlug(text: Option<string>) returns (slug: string)
    requires text.Some? ==> SlugSource(text.value)
    ensures slug == SlugOf(text)
  {
    if IsNullOrEmpty(text) {
      return "";
    }
    var t := text.value;
    var sb: string := "";
    for i := 0 to |t|
      invariant sb == StripMarks(t[..i])
    {
      assert t[..i + 1] == t[..i] + [t[i]];
      FilterConcat(t[..i], [t[i]], (c: char) => !IsNonSpacingMark(c));
      if !IsNonSpacingMark(t[i]) {
        sb := sb + [t[i]];
      }
    }
    assert t[..|t|] == t;
    slug := TrimHyphens(CollapseHyphens(RemoveSpecial(SpacesToHyphens(ToLower(sb)))));
  }

  /** No space, and nothing the character class removes. */
  predicate SlugChars(s: string) {
    forall i :: 0 <= i < |s| ==> IsSlugChar(s[i]) && s[i] != ' '
  }

  /** A slug: slug characters only, no two hyphens in a row, no hyphen at either end. */
  predicate IsSlug(s: string) {
    SlugChars(s) && NoDoubleHyphen(s) && (|s| > 0 ==> s[0] != '-' && s[|s| - 1] != '-')
  }

  lemma RemoveSpecialChars(s: string)
    requires forall i :: 0 <= i < |s| ==> s[i] != ' '
    ensures SlugChars(RemoveSpecial(s))
  {
    var r := RemoveSpecial(s);
    forall i | 0 <= i < |r| ensures IsSlugChar(r[i]) && r[i] != ' ' {
      assert r[i] in r;
    }
  }

  lemma CollapseChars(s: string)
    requires SlugChars(s)
    ensures SlugChars(CollapseHyphens(s))
  {
    var r := CollapseHyphens(s);
    forall i | 0 <= i < |r| ensures IsSlugChar(r[i]) && r[i] != ' ' {
      assert r[i] in r;
      var k :| 0 <= k < |s| && s[k] == r[i];
    }
  }

  lemma TrimGivesSlug(s: string)
    requires SlugChars(s) && NoDoubleHyphen(s)
    ensures IsSlug(TrimHyphens(s))
  {
    var r := TrimHyphens(s);
    var a, b :| 0 <= a <= b <= |s| && r == s[a..b];
    forall i | 0 <= i < |r| ensures IsSlugChar(r[i]) && r[i] != ' ' {
      assert r[i] == s[a + i];
    }
    forall i | 0 <= i < |r| - 1 ensures !(r[i] == '-' && r[i + 1] == '-') {
      assert r[i] == s[a + i] && r[i + 1] == s[a + i + 1];
    }
  }

  /** Whatever the text, `ToSlug` returns a slug. */
  lemma SlugShape(text: Option<string>)
    ensures IsSlug(SlugOf(text))
  {
    if !IsNullOrEmpty(text) {
      var hyphened := SpacesToHyphens(ToLower(StripMarks(text.value)));
      RemoveSpecialChars(hyphened);
      CollapseChars(RemoveSpecial(hyphened));
      TrimGivesSlug(CollapseHyphens(RemoveSpecial(hyphened)));
    }
  }

  lemma StripMarksOfSlug(s: string)
    requires SlugChars(s)
    ensures StripMarks(s) == s
  {
    var keep := (c: char) => !IsNonSpacingMark(c);
    forall i | 0 <= i < |s| ensures keep(s[i]) {
      assert IsSlugChar(s[i]);
    }
    FilterAll(s, keep);
  }

  lemma RemoveSpecialOfSlug(s: string)
    requires SlugChars(s)
    ensures RemoveSpecial(s) == s
  {
    FilterAll(s, IsSlugChar);
  }

  lemma LowerOfSlug(s: string)
    requires SlugChars(s)
    ensures ToLower(s) == s
  {
    forall i | 0 <= i < |s| ensures ToLower(s)[i] == s[i] {
      assert IsSlugChar(s[i]);
    }
  }

  lemma HyphensOfSlug(s: string)
    requires SlugChars(s)
    ensures SpacesToHyphens(s) == s
  {
  }

  /** Each step of the pipeline leaves a slug as it is. */
  lemma SlugFixpoint(s: string)
    requires IsSlug(s)
    ensures SlugOf(Some(s)) == s
  {
    if |s| > 0 {
      StripMarksOfSlug(s);
      LowerOfSlug(s);
      HyphensOfSlug(s);
      RemoveSpecialOfSlug(s);
      var c := CollapseHyphens(s);
      assert c == s;
      assert TrimHyphens(c) == s;
    }
  }

  /** Slugging a slug changes nothing. */
  lemma SlugIdempotent(text: Option<string>)
    ensures SlugOf(Some(SlugOf(text))) == SlugOf(text)
  {
    SlugShape(text);
    SlugFixpoint(SlugOf(text));
  }

  /** Whitespace other than a space passes the character class `\s` and stays in the slug. */
  lemma SlugKeepsTab()
    ensures SlugOf(Some("a\tb")) == "a\tb"
  {
    assert IsSlug("a\tb");
    SlugFixpoint("a\tb");
  }

  // ---- Truncate ----

  /** `TrimEnd()`: the text without its trailing whitespace. */
  function TrimEnd(s: string): (r: string)
    ensures |r| <= |s| && r == s[..|r|]
    ensures |r| > 0 ==> !IsWhiteSpace(r[|r| - 1])
    ensures forall i :: |r| <= i < |s| ==> IsWhiteSpace(s[i])
  {
    if |s| == 0 || !IsWhiteSpace(s[|s| - 1]) then s
    else
      var r := TrimEnd(s[..|s| - 1]);
      assert s[..|s| - 1][..|r|] == s[..|r|];
      r
  }

  /**
   * `Truncate(value, maxLength, addEllipsis)`. Slicing past a negative length throws, so a
   * negative `maxLength` is only meaningful for a null or empty text.
   */
  function Truncate(value: Option<string>, maxLength: int, addEllipsis: bool): (r: string)
    requires maxLength >= 0 || IsNullOrEmpty(value)
    ensures IsNullOrEmpty(value) ==> r == ""
    ensures !IsNullOrEmpty(value) && |value.value| <= maxLength ==> r == value.value
    ensures !IsNullOrEmpty(value) && |value.value| > maxLength ==>
      var kept := if addEllipsis then |r| - 3 else |r|;
      0 <= kept <= maxLength && r[..kept] == value.value[..kept] &&
      (kept > 0 ==> !IsWhiteSpace(r[kept - 1])) &&
      (forall i :: kept <= i < maxLength ==> IsWhiteSpace(value.value[i])) &&
      (addEllipsis ==> r[kept..] == "...")
  {
    if IsNullOrEmpty(value) then ""
    else if |value.value| <= maxLength then value.value
    else
      var t := TrimEnd(value.value[..maxLength]);
      if addEllipsis then t + "..." else t
  }

  /** A result is never longer than `maxLength` plus the three characters of the ellipsis. */
  lemma TruncateLength(value: Option<string>, maxLength: int, addEllipsis: bool)
    requires maxLength >= 0
    ensures |Truncate(value, maxLength, addEllipsis)| <= (if addEllipsis then maxLength + 3 else maxLength)
  {
    if !IsNullOrEmpty(value) && |value.value| > maxLength {
      assert |TrimEnd(value.value[..maxLength])| <= maxLength;
    }
  }

  /** With the ellipsis, truncating to zero characters gives just the ellipsis. */
  lemma TruncateToNothing(v: string)
    requires |v| > 0
    ensures Truncate(Some(v), 0, true) == "..."
  {
    assert TrimEnd(v[..0]) == "";
  }

  // ---- IsValidEmail ----

  /** A run the class `[^@\s]+` accepts. */
  predicate NoAtOrSpace(t: string) {
    |t| > 0 && forall i :: 0 <= i < |t| ==> t[i] != '@' && !IsWhiteSpace(t[i])
  }

  /** `^[^@\s]+@[^@\s]+\.[^@\s]+\z`: the text splits into local part, '@', host, '.', suffix. */
  predicate EmailShape(s: string) {
    exists i, j :: 0 < i < j < |s| - 1 && s[i] == '@' && s[j] == '.' &&
      NoAtOrSpace(s[..i]) && NoAtOrSpace(s[i + 1..j]) && NoAtOrSpace(s[j + 1..])
  }

  /**
   * The pattern as .NET matches it: without the Multiline option `$` matches at the end of
   * the text and also just before a final line feed.
   */
  predicate EmailPatternAsWritten(s: string) {
    EmailShape(s) || (|s| > 0 && s[|s| - 1] == '\n' && EmailShape(s[..|s| - 1]))
  }

  /** `IsValidEmail` as written. */
  predicate IsValidEmailAsWritten(email: Option<string>) {
    !IsNullOrWhiteSpace(email) && EmailPatternAsWritten(email.value)
  }

  /** `IsValidEmail` with the pattern anchored at the very end (`\z`). */
  predicate IsValidEmail(email: Option<string>) {
    !IsNullOrWhiteSpace(email) && EmailShape(email.value)
  }

  /** The accepted addresses, described without the pattern. */
  predicate WellFormedEmail(s: string) {
    (forall k :: 0 <= k < |s| ==> !IsWhiteSpace(s[k])) &&
    exists i :: 0 < i < |s| && s[i] == '@' &&
      (forall k :: 0 <= k < |s| && k != i ==> s[k] != '@') &&
      exists j :: i + 1 < j < |s| - 1 && s[j] == '.'
  }

  /** The pattern accepts exactly the texts with one inner '@', no whitespace, and a '.' strictly inside the host part. */
  lemma EmailShapeCharacterized(s: string)
    ensures EmailShape(s) <==> WellFormedEmail(s)
  {
    if EmailShape(s) {
      var i, j :| 0 < i < j < |s| - 1 && s[i] == '@' && s[j] == '.' &&
        NoAtOrSpace(s[..i]) && NoAtOrSpace(s[i + 1..j]) && NoAtOrSpace(s[j + 1..]);
      forall k | 0 <= k < |s| ensures !IsWhiteSpace(s[k]) && (k != i ==> s[k] != '@') {
        if k < i { assert s[k] == s[..i][k]; }
        else if i < k < j { assert s[k] == s[i + 1..j][k - i - 1]; }
        else if k > j { assert s[k] == s[j + 1..][k - j - 1]; }
      }
    }
    if WellFormedEmail(s) {
      var i :| 0 < i < |s| && s[i] == '@' &&
        (forall k :: 0 <= k < |s| && k != i ==> s[k] != '@') &&
        exists j :: i + 1 < j < |s| - 1 && s[j] == '.';
      var j :| i + 1 < j < |s| - 1 && s[j] == '.';
      SliceClean(s, i, 0, i);
      SliceClean(s, i, i + 1, j);
      SliceClean(s, i, j + 1, |s|);
    }
  }

  lemma SliceClean(s: string, at: int, lo: int, hi: int)
    requires 0 <= lo < hi <= |s| && !(lo <= at < hi)
    requires forall k :: 0 <= k < |s| ==> !IsWhiteSpace(s[k])
    requires forall k :: 0 <= k < |s| && k != at ==> s[k] != '@'
    ensures NoAtOrSpace(s[lo..hi])
  {
    var t := s[lo..hi];
    forall k | 0 <= k < |t| ensures t[k] != '@' && !IsWhiteSpace(t[k]) {
      assert t[k] == s[lo + k];
    }
  }

  /** The corrected check accepts exactly the well-formed addresses, and rejects blank text. */
  lemma IsValidEmailCharacterized(email: Option<string>)
    ensures IsValidEmail(email) <==> email.Some? && WellFormedEmail(email.value)
  {
    if email.Some? {
      EmailShapeCharacterized(email.value);
      if WellFormedEmail(email.value) {
        assert !IsWhiteSpace(email.value[0]);
      }
    }
  }

  /** The corrected check never accepts a text containing a line feed. */
  lemma IsValidEmailRejectsLineFeed(email: Option<string>)
    requires email.Some? && '\n' in email.value
    ensures !IsValidEmail(email)
  {
    IsValidEmailCharacterized(email);
  }

  /** As written, an address followed by a line feed passes the check. */
  lemma TrailingLineFeedAccepted()
    ensures IsValidEmailAsWritten(Some("a@b.c\n"))
    ensures !IsValidEmail(Some("a@b.c\n"))
  {
    var s := "a@b.c";
    assert s == "a@b.c\n"[..5];
    assert NoAtOrSpace(s[..1]) && NoAtOrSpace(s[1 + 1..3]) && NoAtOrSpace(s[3 + 1..]);
    assert 0 < 1 < 3 < |s| - 1 && s[1] == '@' && s[3] == '.';
    assert EmailShape(s);
    IsValidEmailRejectsLineFeed(Some("a@b.c\n"));
  }
}

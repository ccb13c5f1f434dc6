// The data-annotation checks (`[Required]`, `[StringLength]`, `[Range]`) that model
// binding applies to request bodies before an action runs.

module Annotations {
  import opened Common
  import opened StringExtensions
  import opened Seqs

  /**
   * `string.Length` in .NET: the number of UTF-16 code units, so a character outside the
   * Basic Multilingual Plane (above U+FFFF) counts twice.
   */
  function Utf16Length(s: string): (r: nat)
    ensures |s| <= r <= 2 * |s|
  {
    if |s| == 0 then 0 else (if s[0] as int > 0xFFFF then 2 else 1) + Utf16Length(s[1..])
  }

  /** Text of the Basic Multilingual Plane has one code unit per character. */
  lemma {:induction false} BmpLengthIsCharCount(s: string)
    requires forall i :: 0 <= i < |s| ==> s[i] as int <= 0xFFFF
    ensures Utf16Length(s) == |s|
  {
    if |s| > 0 {
      assert forall i :: 0 <= i < |s[1..]| ==> s[1..][i] == s[i + 1];
      BmpLengthIsCharCount(s[1..]);
    }
  }

  /** Each supplementary character adds one code unit over the character count. */
  lemma {:induction false} SupplementaryCountsTwice(s: string)
    ensures Utf16Length(s) == |s| + Count(s, IsSupplementary)
  {
    if |s| > 0 {
      SupplementaryCountsTwice(s[1..]);
    }
  }

  predicate IsSupplementary(c: char) {
    c as int > 0xFFFF
  }

  /** `[StringLength(max)]` on required text, in UTF-16 code units. */
  predicate MaxLengthText(s: string, max: int) {
    Utf16Length(s) <= max
  }

  /** `[StringLength(max)]`: a null value passes. */
  predicate MaxLength(s: Option<string>, max: int) {
    s.None? || MaxLengthText(s.value, max)
  }

  /** "\U{1F600}a" is two characters but three code units, over a limit of two. */
  lemma EmojiOverLimit()
    ensures |"\U{1F600}a"| == 2
    ensures !MaxLength(Some("\U{1F600}a"), 2) && MaxLength(Some("\U{1F600}a"), 3)
  {
    assert Utf16Length("\U{1F600}a") == 2 + Utf16Length("a");
  }

  /** `[Range(lo, hi)]` on a nullable number: a null value passes. */
  predicate InRange(v: Option<int>, lo: int, hi: int) {
    v.None? || lo <= v.value <= hi
  }

  /** `[Required]` on a string: neither null, empty nor only whitespace. */
  predicate RequiredText(s: string) {
    !IsNullOrWhiteSpace(Some(s))
  }

  /** `int.MaxValue` */
  const IntMax: int := 0x7FFF_FFFF
}

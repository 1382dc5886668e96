/** The text operations the store's name search relies on: SQL `lower()` and substring search. */
module Text {

  /** SQLite's built-in `lower()` folds only the ASCII letters A-Z. */
  function LowerChar(c: char): (d: char)
    ensures 'A' <= c <= 'Z' ==> 'a' <= d <= 'z' && d as int - c as int == 'a' as int - 'A' as int
    ensures !('A' <= c <= 'Z') ==> d == c
  {
    if 'A' <= c <= 'Z' then (c as int - 'A' as int + 'a' as int) as char else c
  }

  /** Lower-cases every character of a string. */
  function Lower(s: string): (r: string)
    ensures |r| == |s|
    ensures forall i :: 0 <= i < |s| ==> r[i] == LowerChar(s[i])
  {
    if s == [] then [] else [LowerChar(s[0])] + Lower(s[1..])
  }

  /** Lower-casing twice is lower-casing once. */
  lemma LowerIdempotent(s: string)
    ensures Lower(Lower(s)) == Lower(s)
  {
    assert forall i :: 0 <= i < |s| ==> LowerChar(LowerChar(s[i])) == LowerChar(s[i]);
  }

  /** `part` occurs in `s` starting at index `i`. */
  predicate OccursAt(part: string, s: string, i: int) {
    0 <= i && i + |part| <= |s| && s[i..i + |part|] == part
  }

  /** `part` is a substring of `s` (SQL `s LIKE '%part%'` for a pattern without wildcards). */
  predicate Contains(s: string, part: string) {
    exists i :: 0 <= i <= |s| && OccursAt(part, s, i)
  }

  /** SQL `s ILIKE '%part%'`: both sides lower-cased, then a substring test. */
  predicate ContainsIgnoringCase(s: string, part: string) {
    Contains(Lower(s), Lower(part))
  }

  /** A pattern that is already lower-cased matches the same names as the pattern itself. */
  lemma ContainsIgnoringCaseLowerPattern(s: string, part: string)
    ensures ContainsIgnoringCase(s, Lower(part)) <==> ContainsIgnoringCase(s, part)
  {
    LowerIdempotent(part);
  }

  /** Every string contains itself, whatever the case of either side. */
  lemma ContainsIgnoringCaseSelf(s: string)
    ensures ContainsIgnoringCase(s, s)
  {
    assert OccursAt(Lower(s), Lower(s), 0);
  }
}

/** String tests used by the mail pipeline. */
module Text {

  /** `pat` sits in `s` starting at index `i`. */
  ghost predicate OccursAt(s: string, pat: string, i: int) {
    0 <= i && i + |pat| <= |s| && s[i..i + |pat|] == pat
  }

  /** Python's `pat in s` on strings: a real substring test. */
  function Contains(s: string, pat: string): (b: bool)
    ensures b <==> exists i :: OccursAt(s, pat, i)
    decreases |s|
  {
    if |s| < |pat| then false
    else if s[..|pat|] == pat then
      assert OccursAt(s, pat, 0);
      true
    else
      ContainsShift(s, pat);
      Contains(s[1..], pat)
  }

  /** When `pat` is not a prefix of `s`, its occurrences in `s` are those in `s[1..]`, one further on. */
  lemma ContainsShift(s: string, pat: string)
    requires |pat| <= |s| && s[..|pat|] != pat
    ensures (exists i :: OccursAt(s, pat, i)) <==> (exists j :: OccursAt(s[1..], pat, j))
  {
    if i :| OccursAt(s, pat, i) {
      assert i != 0;
      assert s[1..][i - 1..i - 1 + |pat|] == s[i..i + |pat|];
      assert OccursAt(s[1..], pat, i - 1);
    }
    if j :| OccursAt(s[1..], pat, j) {
      assert s[1..][j..j + |pat|] == s[j + 1..j + 1 + |pat|];
      assert OccursAt(s, pat, j + 1);
    }
  }

  /** ASCII lower-casing of one character. */
  function LowerChar(c: char): char {
    if 'A' <= c <= 'Z' then (c as int + 32) as char else c
  }

  /** ASCII lower-casing of a string, character by character. */
  function Lower(s: string): (r: string)
    ensures |r| == |s|
  {
    if s == [] then [] else [LowerChar(s[0])] + Lower(s[1..])
  }

  /** Header names compare without regard to case. */
  predicate SameName(a: string, b: string) {
    Lower(a) == Lower(b)
  }
}

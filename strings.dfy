/** Character and string helpers used by the trie and the linear scan:
    lower-casing (String.prototype.toLowerCase, restricted to ASCII letters)
    and substring containment (String.prototype.includes). */
module Strings {

  /** True iff no character of `s` is an upper-case ASCII letter. */
  predicate IsLower(s: string) {
    forall i :: 0 <= i < |s| ==> !('A' <= s[i] <= 'Z')
  }

  /** Lower-cases one character: 'A'..'Z' become 'a'..'z', every other character is kept. */
  function Lower(c: char): (r: char)
    ensures !('A' <= r <= 'Z')
    ensures r == c <==> !('A' <= c <= 'Z')
    ensures 'A' <= c <= 'Z' ==> r as int - c as int == 'a' as int - 'A' as int
  {
    if 'A' <= c <= 'Z' then (c as int + 32) as char else c
  }

  /** Lower-cases a whole string, character by character. */
  function LowerString(s: string): (r: string)
    ensures |r| == |s|
    ensures IsLower(r)
    ensures IsLower(s) ==> r == s
    ensures forall i :: 0 <= i < |s| && !('A' <= s[i] <= 'Z') ==> r[i] == s[i]
  {
    seq(|s|, i requires 0 <= i < |s| => Lower(s[i]))
  }

  /** Lower-casing is idempotent, which is what makes a lower-cased lookup case-insensitive. */
  lemma LowerStringIdempotent(s: string)
    ensures LowerString(LowerString(s)) == LowerString(s)
  {
  }

  /** `s.includes(t)`: `t` occurs in `s` as a contiguous substring (the empty string occurs everywhere). */
  predicate Contains(s: string, t: string): (r: bool)
    ensures r ==> |t| <= |s|
    ensures t == [] ==> r
  {
    assert t == [] ==> OccursAt(s, t, 0);
    exists i :: 0 <= i <= |s| - |t| && OccursAt(s, t, i)
  }

  /** `t` occurs in `s` starting at index `i`. */
  predicate OccursAt(s: string, t: string, i: int)
    requires 0 <= i <= |s| - |t|
  {
    s[i..i + |t|] == t
  }

  /** A prefix of a string is contained in it; in particular every string contains itself. */
  lemma PrefixContained(p: string, s: string)
    requires p <= s
    ensures Contains(s, p)
  {
    assert OccursAt(s, p, 0);
  }
}

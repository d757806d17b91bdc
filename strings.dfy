/** Python string operations the seeker and the disassembler adapter rely on:
    `str.find`, `str.rfind` on one character, `in` on strings, `str.startswith`
    and `str.lower` (ASCII letters only). */
module Strings {

  /** `pat` occurs in `s` starting at index `i`. */
  predicate OccursAt(s: string, pat: string, i: int)
  {
    0 <= i && i + |pat| <= |s| && s[i..i + |pat|] == pat
  }

  /** `s.find(pat, start)`: the first index at or after `start` where `pat`
      occurs, or -1 when there is none (`FindFromIsFirst` proves this). */
  function FindFrom(s: string, pat: string, start: nat): (r: int)
    ensures r == -1 || (start <= r && r + |pat| <= |s|)
    decreases |s| - start
  {
    if start + |pat| > |s| then -1
    else if s[start..start + |pat|] == pat then start
    else FindFrom(s, pat, start + 1)
  }

  /** `FindFrom` returns the first occurrence at or after `start`, and -1
      exactly when there is none. */
  lemma {:induction false} FindFromIsFirst(s: string, pat: string, start: nat)
    ensures FindFrom(s, pat, start) == -1 ==> forall i :: start <= i ==> !OccursAt(s, pat, i)
    ensures FindFrom(s, pat, start) != -1 ==> OccursAt(s, pat, FindFrom(s, pat, start))
    ensures forall i :: start <= i < FindFrom(s, pat, start) ==> !OccursAt(s, pat, i)
    decreases |s| - start
  {
    if start + |pat| <= |s| && s[start..start + |pat|] != pat {
      FindFromIsFirst(s, pat, start + 1);
    }
  }

  /** `s.find(pat)`. */
  function Find(s: string, pat: string): (r: int)
    ensures r == -1 || (0 <= r && r + |pat| <= |s|)
  {
    FindFrom(s, pat, 0)
  }

  /** `Find` returns the first occurrence, and -1 exactly when there is none. */
  lemma FindIsFirst(s: string, pat: string)
    ensures Find(s, pat) == -1 <==> forall i :: !OccursAt(s, pat, i)
    ensures Find(s, pat) != -1 ==> OccursAt(s, pat, Find(s, pat))
    ensures forall i :: 0 <= i < Find(s, pat) ==> !OccursAt(s, pat, i)
  {
    FindFromIsFirst(s, pat, 0);
  }

  /** `pat in s` on strings. */
  predicate Contains(s: string, pat: string)
  {
    Find(s, pat) >= 0
  }

  /** `pat in s` holds exactly when `pat` occurs somewhere in `s`. */
  lemma ContainsIffOccurs(s: string, pat: string)
    ensures Contains(s, pat) <==> exists i :: OccursAt(s, pat, i)
  {
    FindIsFirst(s, pat);
  }

  /** `s.rfind(c)` for a single character: the last index holding `c`, or -1. */
  function LastIndexOf(s: string, c: char): (r: int)
    ensures r == -1 <==> c !in s
    ensures r != -1 ==> 0 <= r < |s| && s[r] == c && forall i :: r < i < |s| ==> s[i] != c
  {
    if s == [] then -1
    else if s[|s| - 1] == c then |s| - 1
    else LastIndexOf(s[..|s| - 1], c)
  }

  /** `s.startswith(prefix)`. */
  predicate StartsWith(s: string, prefix: string)
  {
    |prefix| <= |s| && s[..|prefix|] == prefix
  }

  /** `c.lower()` for ASCII: upper-case letters map to lower case, every other
      character is kept. */
  function LowerChar(c: char): char
  {
    if 'A' <= c <= 'Z' then (c as int + 32) as char else c
  }

  /** `s.lower()`, character by character. */
  function ToLower(s: string): (r: string)
    ensures |r| == |s|
    ensures forall i :: 0 <= i < |s| ==> r[i] == LowerChar(s[i])
  {
    seq(|s|, i requires 0 <= i < |s| => LowerChar(s[i]))
  }

  /** Lower-casing a suffix is taking the suffix of the lower-cased string. */
  lemma LowerSuffix(s: string, k: nat)
    requires k <= |s|
    ensures ToLower(s[k..]) == ToLower(s)[k..]
  {
    var a, b := ToLower(s[k..]), ToLower(s)[k..];
    forall i | 0 <= i < |a| ensures a[i] == b[i] {
      assert s[k..][i] == s[k + i];
    }
  }
}

/** The two std::string searches the classifier relies on: `find` (is a
    pattern a literal substring?) and `find_last_of` (where is the last
    character drawn from a set?). "Not found" (string::npos) is `None`. */
module StringOps {

  datatype Option<+T> = None | Some(value: T)

  /** `pat` occurs in `s` starting at index `i`. */
  predicate OccursAt(pat: string, s: string, i: nat) {
    i + |pat| <= |s| && s[i..i + |pat|] == pat
  }

  /** `pat` is a literal (case-sensitive) substring of `s`. */
  predicate Contains(s: string, pat: string) {
    exists i: nat | i <= |s| :: OccursAt(pat, s, i)
  }

  /** std::string::find: the first index at which `pat` occurs in `s`, or
      `None` (npos) when it occurs nowhere. The empty pattern is found at 0. */
  method Find(s: string, pat: string) returns (r: Option<nat>)
    ensures r.Some? ==> OccursAt(pat, s, r.value)
    ensures r.Some? ==> forall j: nat :: j < r.value ==> !OccursAt(pat, s, j)
    ensures r.None? <==> !Contains(s, pat)
  {
    var i := 0;
    while i + |pat| <= |s|
      invariant forall j: nat :: j < i ==> !OccursAt(pat, s, j)
    {
      if s[i..i + |pat|] == pat {
        return Some(i);
      }
      i := i + 1;
    }
    return None;
  }

  /** std::string::find_last_of: the index of the last character of `s`
      that belongs to `chars`, or `None` (npos) when no character does. */
  function FindLastOf(s: string, chars: set<char>): (r: Option<nat>)
    ensures r.Some? ==> r.value < |s| && s[r.value] in chars
    ensures r.Some? ==> forall j :: r.value < j < |s| ==> s[j] !in chars
    ensures r.None? <==> forall j :: 0 <= j < |s| ==> s[j] !in chars
  {
    if |s| == 0 then None
    else if s[|s| - 1] in chars then Some(|s| - 1)
    else FindLastOf(s[..|s| - 1], chars)
  }
}

/** The JavaScript string operations the SVG helpers use, with JavaScript's
    treatment of out-of-range positions: String.prototype.indexOf clamps its
    start position into the string and answers -1 when there is no match;
    String.prototype.substring clamps both ends and swaps them when the
    first is the larger. */
module JsString {

  /** `pat` occurs in `s` starting at position i. */
  predicate OccursAt(s: string, pat: string, i: int)
  {
    0 <= i && i + |pat| <= |s| && s[i..i + |pat|] == pat
  }

  /** The characters of `pat` from position k on match those of `s` from
      position i + k on: the comparison indexOf makes at candidate i. */
  predicate MatchFrom(s: string, pat: string, i: nat, k: nat)
    requires i + |pat| <= |s| && k <= |pat|
    decreases |pat| - k
  {
    k == |pat| || (s[i + k] == pat[k] && MatchFrom(s, pat, i, k + 1))
  }

  /** A position clamped into 0 .. len. */
  function Clamp(x: int, len: nat): (r: nat)
    ensures r <= len
    ensures 0 <= x <= len ==> r == x
  {
    if x < 0 then 0 else if x > len then len else x
  }

  /** The first occurrence of `pat` at or after position i, or -1. */
  function IndexFrom(s: string, pat: string, i: nat): (r: int)
    requires i <= |s|
    ensures r == -1 || (i <= r && r + |pat| <= |s|)
    decreases |s| - i
  {
    if i + |pat| > |s| then -1
    else if MatchFrom(s, pat, i, 0) then i
    else IndexFrom(s, pat, i + 1)
  }

  /** s.indexOf(pat, from), searching from the clamped start. */
  function IndexOf(s: string, pat: string, from: int): (r: int)
    ensures r == -1 || (Clamp(from, |s|) <= r && r + |pat| <= |s|)
  {
    IndexFrom(s, pat, Clamp(from, |s|))
  }

  /** s.includes(pat) */
  function Includes(s: string, pat: string): bool
  {
    IndexOf(s, pat, 0) != -1
  }

  /** The comparison from k on holds exactly when the characters agree. */
  lemma {:induction false} MatchFromMeaning(s: string, pat: string, i: nat, k: nat)
    requires i + |pat| <= |s| && k <= |pat|
    ensures MatchFrom(s, pat, i, k) <==> forall m :: k <= m < |pat| ==> s[i + m] == pat[m]
    decreases |pat| - k
  {
    if k < |pat| {
      MatchFromMeaning(s, pat, i, k + 1);
    }
  }

  /** The full comparison at candidate i is an occurrence at i. */
  lemma MatchOccurs(s: string, pat: string, i: nat)
    requires i + |pat| <= |s|
    ensures MatchFrom(s, pat, i, 0) <==> OccursAt(s, pat, i)
  {
    MatchFromMeaning(s, pat, i, 0);
    if MatchFrom(s, pat, i, 0) {
      assert s[i..i + |pat|] == pat;
    } else {
      var m :| 0 <= m < |pat| && s[i + m] != pat[m];
      assert s[i..i + |pat|][m] != pat[m];
    }
  }

  /** The search from i finds the first occurrence at or after i, and
      answers -1 exactly when there is none. */
  lemma {:induction false} IndexFromMeaning(s: string, pat: string, i: nat)
    requires i <= |s|
    ensures var r := IndexFrom(s, pat, i);
      (r == -1 || (i <= r && OccursAt(s, pat, r))) &&
      (r == -1 <==> forall j :: i <= j <= |s| ==> !OccursAt(s, pat, j)) &&
      (r != -1 ==> forall j :: i <= j < r ==> !OccursAt(s, pat, j))
    decreases |s| - i
  {
    if i + |pat| <= |s| {
      MatchOccurs(s, pat, i);
      if !MatchFrom(s, pat, i, 0) {
        IndexFromMeaning(s, pat, i + 1);
      }
    }
  }

  /** s.indexOf(pat, from) is the first occurrence at or after the clamped
      start, and -1 exactly when there is none. */
  lemma IndexOfMeaning(s: string, pat: string, from: int)
    ensures var r := IndexOf(s, pat, from); var start := Clamp(from, |s|);
      (r == -1 || (start <= r && OccursAt(s, pat, r))) &&
      (r == -1 <==> forall j :: start <= j <= |s| ==> !OccursAt(s, pat, j)) &&
      (r != -1 ==> forall j :: start <= j < r ==> !OccursAt(s, pat, j))
  {
    IndexFromMeaning(s, pat, Clamp(from, |s|));
  }

  /** s.includes(pat) holds exactly when `pat` occurs somewhere. */
  lemma IncludesMeaning(s: string, pat: string)
    ensures Includes(s, pat) <==> exists j :: 0 <= j <= |s| && OccursAt(s, pat, j)
  {
    IndexOfMeaning(s, pat, 0);
  }

  /** s.substring(a, b) */
  function Substring(s: string, a: int, b: int): string
  {
    var x, y := Clamp(a, |s|), Clamp(b, |s|);
    if x <= y then s[x..y] else s[y..x]
  }

  /** s.substring(a) */
  function SubstringFrom(s: string, a: int): (r: string)
    ensures r == s[Clamp(a, |s|)..]
  {
    Substring(s, a, |s|)
  }

  // ---------------------------------------------------------------------
  // Facts used to locate matches
  // ---------------------------------------------------------------------

  /** A one-character pattern occurs exactly where that character is. */
  lemma OccursAtChar(s: string, c: char, j: int)
    ensures OccursAt(s, [c], j) <==> 0 <= j < |s| && s[j] == c
  {
    if 0 <= j < |s| {
      assert s[j..j + 1] == [s[j]];
    }
  }

  /** An occurrence fixes each character it covers. */
  lemma OccursAtIndex(s: string, pat: string, j: int, k: nat)
    requires k < |pat|
    ensures OccursAt(s, pat, j) ==> s[j + k] == pat[k]
  {
    if OccursAt(s, pat, j) {
      assert s[j..j + |pat|][k] == pat[k];
    }
  }

  /** An occurrence with none before it, from the start position on, is the
      one indexOf finds. */
  lemma IndexOfAt(s: string, pat: string, from: nat, i: nat)
    requires from <= i && OccursAt(s, pat, i)
    requires forall j :: from <= j < i ==> !OccursAt(s, pat, j)
    ensures IndexOf(s, pat, from) == i
  {
    IndexOfMeaning(s, pat, from);
  }

  /** Searching for a character: its first position at or after `from`. */
  lemma IndexOfCharAt(s: string, c: char, from: nat, i: nat)
    requires from <= i < |s| && s[i] == c
    requires forall j :: from <= j < i ==> s[j] != c
    ensures IndexOf(s, [c], from) == i
  {
    OccursAtChar(s, c, i);
    forall j | from <= j < i
      ensures !OccursAt(s, [c], j)
    {
      OccursAtChar(s, c, j);
    }
    IndexOfAt(s, [c], from, i);
  }

  /** Searching for a character that is absent from `from` on. */
  lemma IndexOfCharNone(s: string, c: char, from: nat)
    requires from <= |s|
    requires forall j :: from <= j < |s| ==> s[j] != c
    ensures IndexOf(s, [c], from) == -1
  {
    IndexOfMeaning(s, [c], from);
    forall j | from <= j <= |s|
      ensures !OccursAt(s, [c], j)
    {
      OccursAtChar(s, c, j);
    }
  }

  /** Two strings that agree on their first k characters have the same
      matches ending within those k characters. */
  lemma OccursAtPrefix(s: string, t: string, pat: string, j: int, k: nat)
    requires k <= |s| && k <= |t| && s[..k] == t[..k] && j + |pat| <= k
    ensures OccursAt(s, pat, j) <==> OccursAt(t, pat, j)
  {
    if 0 <= j {
      assert s[j..j + |pat|] == s[..k][j..j + |pat|];
      assert t[j..j + |pat|] == t[..k][j..j + |pat|];
    }
  }

  /** indexOf gives the same answer on two strings that agree up to the end
      of the match it finds in the first. */
  lemma IndexOfSamePrefix(s: string, t: string, pat: string, from: nat, k: nat)
    requires k <= |s| && k <= |t| && s[..k] == t[..k] && from <= k
    requires IndexOf(s, pat, from) != -1 && IndexOf(s, pat, from) + |pat| <= k
    ensures IndexOf(t, pat, from) == IndexOf(s, pat, from)
  {
    var i := IndexOf(s, pat, from);
    IndexOfMeaning(s, pat, from);
    OccursAtPrefix(s, t, pat, i, k);
    forall j | from <= j < i
      ensures !OccursAt(t, pat, j)
    {
      OccursAtPrefix(s, t, pat, j, k);
    }
    IndexOfAt(t, pat, from, i);
  }
}

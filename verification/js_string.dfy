/**
 * The part of JavaScript's string library the converter relies on:
 * `String.prototype.replace` called with a string pattern and the empty
 * replacement. With a string (not a regular expression) as pattern, `replace`
 * rewrites only the FIRST occurrence, found as `indexOf` would find it.
 */
module JsString {
  import opened Wrappers

  /** `pat` occurs in `s` starting at index `i`. */
  predicate OccursAt(s: string, pat: string, i: int)
  {
    0 <= i && i + |pat| <= |s| && s[i..i + |pat|] == pat
  }

  /** `i` is the leftmost index at which `pat` occurs in `s`. */
  predicate IsFirstOccurrence(s: string, pat: string, i: int)
  {
    OccursAt(s, pat, i) && forall j :: 0 <= j < i ==> !OccursAt(s, pat, j)
  }

  /** An occurrence at `i + 1` in `s` is an occurrence at `i` in `s[1..]`. */
  lemma OccursAtTail(s: string, pat: string, i: int)
    requires |s| > 0 && 0 <= i
    ensures OccursAt(s, pat, i + 1) <==> OccursAt(s[1..], pat, i)
  {
    if i + 1 + |pat| <= |s| {
      assert s[i + 1..i + 1 + |pat|] == s[1..][i..i + |pat|];
    }
  }

  /** The search `indexOf` performs: the leftmost occurrence, if there is one. */
  function IndexOf(s: string, pat: string): (r: Option<nat>)
    ensures r.Some? ==> IsFirstOccurrence(s, pat, r.value)
    ensures r.None? ==> forall j :: !OccursAt(s, pat, j)
    decreases |s|
  {
    if |pat| <= |s| && s[..|pat|] == pat then
      Some(0)
    else if s == [] then
      None
    else
      assert !OccursAt(s, pat, 0) by {
        if |pat| <= |s| { assert s[0..|pat|] == s[..|pat|]; }
      }
      match IndexOf(s[1..], pat)
      case None =>
        assert forall j :: !OccursAt(s, pat, j) by {
          forall j | 0 < j ensures !OccursAt(s, pat, j) { OccursAtTail(s, pat, j - 1); }
        }
        None
      case Some(k) =>
        assert IsFirstOccurrence(s, pat, k + 1) by {
          OccursAtTail(s, pat, k);
          forall j | 0 < j <= k ensures !OccursAt(s, pat, j) { OccursAtTail(s, pat, j - 1); }
        }
        Some(k + 1)
  }

  /**
   * `s.replace(pat, '')`: the leftmost occurrence of `pat` is cut out and the
   * rest of `s` is kept; without an occurrence `s` comes back unchanged.
   */
  function RemoveFirst(s: string, pat: string): (r: string)
    ensures (forall j :: !OccursAt(s, pat, j)) ==> r == s
    ensures forall i :: IsFirstOccurrence(s, pat, i) ==> r == s[..i] + s[i + |pat|..]
  {
    match IndexOf(s, pat)
    case None => s
    case Some(i) => s[..i] + s[i + |pat|..]
  }

  /** Removing an occurrence shortens the string by exactly the pattern's length. */
  lemma RemoveFirstLength(s: string, pat: string, i: int)
    requires IsFirstOccurrence(s, pat, i)
    ensures |RemoveFirst(s, pat)| == |s| - |pat|
  {
  }

  /** A string splits around an occurrence of the pattern. */
  lemma SplitAtOccurrence(s: string, pat: string, i: int)
    requires OccursAt(s, pat, i)
    ensures s == s[..i] + pat + s[i + |pat|..]
  {
    assert s == s[..i] + s[i..i + |pat|] + s[i + |pat|..];
  }

  /** Putting the pattern back where it was cut out gives the original string. */
  lemma RemoveFirstUndo(s: string, pat: string, i: int)
    requires IsFirstOccurrence(s, pat, i)
    ensures RemoveFirst(s, pat)[..i] + pat + RemoveFirst(s, pat)[i..] == s
  {
    var r := RemoveFirst(s, pat);
    assert r[..i] == s[..i] && r[i..] == s[i + |pat|..] by {
      assert r == s[..i] + s[i + |pat|..];
    }
    SplitAtOccurrence(s, pat, i);
  }

  /** The part before the cut contains no occurrence of the pattern. */
  lemma RemoveFirstPrefixClean(s: string, pat: string, i: int, j: int)
    requires IsFirstOccurrence(s, pat, i)
    requires 0 <= j < i && j + |pat| <= i
    ensures !OccursAt(RemoveFirst(s, pat), pat, j)
  {
    var r := RemoveFirst(s, pat);
    assert r[..i] == s[..i];
    assert r[j..j + |pat|] == r[..i][j..j + |pat|] == s[..i][j..j + |pat|];
    assert !OccursAt(s, pat, j);
  }

  /** Only the first occurrence goes: every later one is still there, shifted left. */
  lemma LaterOccurrencesSurvive(s: string, pat: string, i: int, j: int)
    requires IsFirstOccurrence(s, pat, i)
    requires j >= i + |pat| && OccursAt(s, pat, j)
    ensures OccursAt(RemoveFirst(s, pat), pat, j - |pat|)
  {
    var r := RemoveFirst(s, pat);
    assert r[j - |pat|..j] == s[j..j + |pat|];
  }
}

/** Replacing every occurrence of a pattern in a string, scanning left to
    right and never overlapping matches. */
module Strings {

  /** `p` occurs in `s` starting at index `k`. */
  predicate MatchAt(s: string, p: string, k: int) {
    0 <= k && k + |p| <= |s| && s[k..k + |p|] == p
  }

  predicate Occurs(s: string, p: string) {
    exists k :: 0 <= k <= |s| && MatchAt(s, p, k)
  }

  /** Every non-overlapping occurrence of `pat` in `s`, found left to right,
      replaced by `rep`. */
  function ReplaceAll(s: string, pat: string, rep: string): (r: string)
    requires |pat| > 0
    ensures !Occurs(s, pat) ==> r == s
    ensures |rep| <= |pat| ==> |r| <= |s|
    decreases |s|
  {
    if |s| < |pat| then s
    else if s[..|pat|] == pat then
      assert MatchAt(s, pat, 0);
      rep + ReplaceAll(s[|pat|..], pat, rep)
    else
      assert forall k :: MatchAt(s[1..], pat, k) ==> MatchAt(s, pat, k + 1);
      [s[0]] + ReplaceAll(s[1..], pat, rep)
  }

  /** A leading occurrence is replaced and the pass resumes after it. */
  lemma ReplaceAllHit(pat: string, t: string, rep: string)
    requires |pat| > 0
    ensures ReplaceAll(pat + t, pat, rep) == rep + ReplaceAll(t, pat, rep)
  {
    assert (pat + t)[..|pat|] == pat && (pat + t)[|pat|..] == t;
  }

  /** A leading character that starts no occurrence is kept as it is. */
  lemma ReplaceAllSkip(c: char, t: string, pat: string, rep: string)
    requires |pat| > 0
    requires |[c] + t| < |pat| || ([c] + t)[..|pat|] != pat
    ensures ReplaceAll([c] + t, pat, rep) == [c] + ReplaceAll(t, pat, rep)
  {
    assert ([c] + t)[1..] == t;
  }

  /** A character before an occurrence of a pattern whose first two
      characters differ is kept, and the occurrence is replaced. */
  lemma ReplaceAllSkipThenHit(c: char, pat: string, t: string, rep: string)
    requires |pat| >= 2 && pat[0] != pat[1]
    ensures ReplaceAll([c] + (pat + t), pat, rep) == [c] + (rep + ReplaceAll(t, pat, rep))
  {
    assert ([c] + (pat + t))[1] == pat[0];
    ReplaceAllSkip(c, pat + t, pat, rep);
    ReplaceAllHit(pat, t, rep);
  }

  /** No character of `sep` occurs in `p`. */
  predicate Foreign(sep: string, p: string) {
    forall c :: c in sep ==> c !in p
  }

  /** Joining two pattern-free strings with a separator made of characters
      foreign to the pattern creates no occurrence across the joins. */
  lemma NoOccurrenceAcrossSeparator(a: string, sep: string, b: string, p: string)
    requires |p| > 0 && |sep| > 0
    requires Foreign(sep, p)
    requires !Occurs(a, p) && !Occurs(b, p)
    ensures !Occurs(a + sep + b, p)
  {
    var s := a + sep + b;
    forall k | 0 <= k <= |s|
      ensures !MatchAt(s, p, k)
    {
      if k + |p| <= |a| {
        assert s[k..k + |p|] == a[k..k + |p|];
        assert !MatchAt(a, p, k);
      } else if k >= |a| + |sep| {
        var k' := k - |a| - |sep|;
        if k' + |p| <= |b| {
          assert s[k..k + |p|] == b[k'..k' + |p|];
          assert !MatchAt(b, p, k');
        }
      } else if k + |p| <= |s| {
        var j := if k < |a| then |a| else k;
        assert s[j] == sep[j - |a|] && sep[j - |a|] in sep;
        assert s[k..k + |p|][j - k] == s[j] && s[j] !in p;
      }
    }
  }
}

/**
 * Substring search as `std::string::find` performs it, and the three
 * predicates of x.hpp built on searching: `startWith`, `endWith`, `contain`.
 */
module StringSearch {
  import opened Wrappers

  /** `pat` occurs in `s` starting at index `i`. */
  predicate OccursAt(s: string, pat: string, i: nat) {
    i + |pat| <= |s| && s[i..i + |pat|] == pat
  }

  /**
   * `s.find(pat, from)`: the least index at or after `from` where `pat`
   * occurs, or `None` for `npos`. An empty pattern is found at `from`
   * itself whenever `from <= |s|`. `FindFirst` proves that characterisation.
   */
  function Find(s: string, pat: string, from: nat): (r: Option<nat>)
    ensures r.Some? ==> from <= r.value && r.value + |pat| <= |s|
    decreases |s| - from
  {
    if from + |pat| > |s| then None
    else if s[from..from + |pat|] == pat then Some(from)
    else Find(s, pat, from + 1)
  }

  /** `Find` answers with the first occurrence at or after `from`, and with `None` only when there is none. */
  lemma {:induction false} FindFirst(s: string, pat: string, from: nat)
    ensures Find(s, pat, from).Some? ==> OccursAt(s, pat, Find(s, pat, from).value)
    ensures Find(s, pat, from).Some? ==> forall j :: from <= j < Find(s, pat, from).value ==> !OccursAt(s, pat, j)
    ensures Find(s, pat, from).None? ==> forall j :: from <= j ==> !OccursAt(s, pat, j)
    decreases |s| - from
  {
    if from + |pat| <= |s| && s[from..from + |pat|] != pat {
      FindFirst(s, pat, from + 1);
    }
  }

  /**
   * Searching two strings that agree from `a` and from `b` on gives the same
   * answer, shifted by the difference of the two starting points.
   */
  lemma {:induction false} FindShift(t: string, u: string, pat: string, a: nat, b: nat)
    requires a <= |t| && b <= |u| && t[a..] == u[b..]
    ensures Find(t, pat, a).Some? == Find(u, pat, b).Some?
    ensures Find(t, pat, a).Some? ==> Find(t, pat, a).value - a == Find(u, pat, b).value - b
    decreases |u| - b
  {
    assert |t| - a == |u| - b;
    if a + |pat| <= |t| {
      assert t[a..a + |pat|] == t[a..][..|pat|] == u[b..][..|pat|] == u[b..b + |pat|];
      if t[a..a + |pat|] != pat {
        assert t[a + 1..] == t[a..][1..] == u[b..][1..] == u[b + 1..];
        FindShift(t, u, pat, a + 1, b + 1);
      }
    }
  }

  /** `contain(sv, sub)`: `sub` occurs somewhere in `sv`; the empty pattern always does. */
  predicate Contain(sv: string, sub: string)
    ensures Contain(sv, sub) <==> exists i :: OccursAt(sv, sub, i)
  {
    FindFirst(sv, sub, 0);
    Find(sv, sub, 0).Some?
  }

  /** `startWith(s, prefix)`: compares `prefix` with `s.substr(0, prefix.size())`, which is cut short at the end of `s`. */
  predicate StartWith(s: string, prefix: string)
    ensures StartWith(s, prefix) <==> prefix <= s
  {
    var n := if |prefix| < |s| then |prefix| else |s|;
    s[..n] == prefix
  }

  /** `endWith(s, suffix)`: `s` is long enough and its last `suffix.size()` characters are `suffix`. */
  predicate EndWith(s: string, suffix: string)
    ensures EndWith(s, suffix) <==> exists t :: t + suffix == s
  {
    assert |suffix| <= |s| ==> s[..|s| - |suffix|] + s[|s| - |suffix|..] == s;
    |s| >= |suffix| && s[|s| - |suffix|..] == suffix
  }

  /** A prefix or a suffix of `s` is contained in `s`. */
  lemma PrefixSuffixContained(s: string, p: string)
    ensures StartWith(s, p) ==> Contain(s, p)
    ensures EndWith(s, p) ==> Contain(s, p)
  {
    if StartWith(s, p) {
      assert OccursAt(s, p, 0);
    }
    if EndWith(s, p) {
      assert OccursAt(s, p, |s| - |p|);
    }
  }

  /** Inside a window `s[lo..hi]`, `pat` occurs at `j` exactly when it occurs in `s` at `lo + j`. */
  lemma OccursInWindow(s: string, pat: string, lo: nat, hi: nat, j: nat)
    requires lo <= hi <= |s| && j + |pat| <= hi - lo
    ensures OccursAt(s[lo..hi], pat, j) <==> OccursAt(s, pat, lo + j)
  {
    var w := s[lo..hi];
    var inner, outer := w[j..j + |pat|], s[lo + j..lo + j + |pat|];
    forall k | 0 <= k < |pat| ensures inner[k] == outer[k] {
      assert inner[k] == w[j + k];
    }
    assert inner == outer;
  }

  /**
   * No occurrence of `pat` starts in `s` between `lo` and the end of a window
   * `s[lo..hi]`, so the window does not contain `pat`.
   */
  lemma WindowAvoids(s: string, pat: string, lo: nat, hi: nat)
    requires lo <= hi <= |s|
    requires forall j :: lo <= j < hi ==> !OccursAt(s, pat, j)
    requires |pat| > 0
    ensures !Contain(s[lo..hi], pat)
  {
    forall j: nat ensures !OccursAt(s[lo..hi], pat, j) {
      if j + |pat| <= hi - lo {
        OccursInWindow(s, pat, lo, hi, j);
      }
    }
  }
}

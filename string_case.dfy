/**
 * The character-wise string operations of x.hpp: `reverse` (`std::reverse`
 * on a copy), `upper` and `lower` (`std::transform` with `::toupper` /
 * `::tolower` on a copy) and `same_nocase` (`std::equal` under `::tolower`).
 */
module StringCase {
  import opened Chars
  import opened StringSearch

  /** `reverse(s)`: the characters of `s` in the opposite order. */
  function Reverse(s: string): (r: string)
    ensures |r| == |s|
    ensures forall i :: 0 <= i < |s| ==> r[i] == s[|s| - 1 - i]
    decreases |s|
  {
    if |s| == 0 then "" else Reverse(s[1..]) + [s[0]]
  }

  /** Reversing twice gives the original string back. */
  lemma ReverseInvolution(s: string)
    ensures Reverse(Reverse(s)) == s
  {
    var rr := Reverse(Reverse(s));
    forall i | 0 <= i < |s| ensures rr[i] == s[i] {
      assert rr[i] == Reverse(s)[|s| - 1 - i];
    }
  }

  /** A suffix of `s` is a prefix of the reversed `s`, once reversed itself. */
  lemma EndWithIsReversedStartWith(s: string, suffix: string)
    ensures EndWith(s, suffix) <==> StartWith(Reverse(s), Reverse(suffix))
  {
    var rs, rx := Reverse(s), Reverse(suffix);
    if |suffix| <= |s| {
      var tail := s[|s| - |suffix|..];
      if tail == suffix {
        forall i | 0 <= i < |suffix| ensures rx[i] == rs[i] {
          assert tail[|suffix| - 1 - i] == s[|s| - 1 - i];
        }
        assert rx == rs[..|suffix|];
      }
      if rx <= rs {
        forall j | 0 <= j < |suffix| ensures tail[j] == suffix[j] {
          var i := |suffix| - 1 - j;
          assert rx[i] == rs[i];
        }
        assert tail == suffix;
      }
    }
  }

  /** `upper(s)`: every character through `::toupper`. */
  function Upper(s: string): (r: string)
    ensures |r| == |s|
    ensures forall i :: 0 <= i < |s| ==> r[i] == ToUpper(s[i])
    decreases |s|
  {
    if |s| == 0 then "" else [ToUpper(s[0])] + Upper(s[1..])
  }

  /** `lower(s)`: every character through `::tolower`. */
  function Lower(s: string): (r: string)
    ensures |r| == |s|
    ensures forall i :: 0 <= i < |s| ==> r[i] == ToLower(s[i])
    decreases |s|
  {
    if |s| == 0 then "" else [ToLower(s[0])] + Lower(s[1..])
  }

  /**
   * `upper` leaves no lower-case letter and keeps every character that is not
   * a lower-case letter; applying it again changes nothing.
   */
  lemma UpperProperties(s: string)
    ensures forall i :: 0 <= i < |s| ==> !IsLowerLetter(Upper(s)[i])
    ensures forall i :: 0 <= i < |s| && !IsLowerLetter(s[i]) ==> Upper(s)[i] == s[i]
    ensures Upper(Upper(s)) == Upper(s)
  {
    var u := Upper(s);
    assert forall i :: 0 <= i < |s| ==> Upper(u)[i] == u[i];
  }

  /**
   * `lower` leaves no upper-case letter and keeps every character that is not
   * an upper-case letter; applying it again changes nothing.
   */
  lemma LowerProperties(s: string)
    ensures forall i :: 0 <= i < |s| ==> !IsUpperLetter(Lower(s)[i])
    ensures forall i :: 0 <= i < |s| && !IsUpperLetter(s[i]) ==> Lower(s)[i] == s[i]
    ensures Lower(Lower(s)) == Lower(s)
  {
    var l := Lower(s);
    assert forall i :: 0 <= i < |s| ==> Lower(l)[i] == l[i];
  }

  /** Lower-casing after upper-casing is lower-casing, and the other way round. */
  lemma CaseRoundTrip(s: string)
    ensures Lower(Upper(s)) == Lower(s)
    ensures Upper(Lower(s)) == Upper(s)
  {
    forall i | 0 <= i < |s| ensures Lower(Upper(s))[i] == Lower(s)[i] && Upper(Lower(s))[i] == Upper(s)[i] {
      FoldIgnoresUpper(s[i]);
    }
  }

  /** Position by position equal once both characters go through `::tolower`. */
  predicate FoldedEqual(a: string, b: string)
    requires |a| == |b|
    ensures FoldedEqual(a, b) <==> forall i :: 0 <= i < |a| ==> ToLower(a[i]) == ToLower(b[i])
    decreases |a|
  {
    |a| == 0 || (ToLower(a[0]) == ToLower(b[0]) && FoldedEqual(a[1..], b[1..]))
  }

  /** `same_nocase(s1, s2)`: equal lengths, then `std::equal` under `::tolower`. */
  predicate SameNoCase(s1: string, s2: string)
    ensures SameNoCase(s1, s2) <==> Lower(s1) == Lower(s2)
  {
    assert |s1| == |s2| && Lower(s1) == Lower(s2) ==> forall i :: 0 <= i < |s1| ==> Lower(s1)[i] == Lower(s2)[i];
    |s1| == |s2| && FoldedEqual(s1, s2)
  }

  /** Case-insensitive equality is an equivalence relation, and it ignores `upper`. */
  lemma SameNoCaseEquivalence(a: string, b: string, c: string)
    ensures SameNoCase(a, a)
    ensures SameNoCase(a, b) ==> SameNoCase(b, a)
    ensures SameNoCase(a, b) && SameNoCase(b, c) ==> SameNoCase(a, c)
    ensures SameNoCase(a, Upper(a))
  {
    CaseRoundTrip(a);
  }
}

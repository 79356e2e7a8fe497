/**
 * The string operations of x.hpp that scan with index variables: `split`,
 * `join`, `replace`, `trim` and `is_digit`. Each loop of the source is a
 * method proved against a specification function; the lemmas state what the
 * specification functions promise.
 */
module StringOps {
  import opened Wrappers
  import opened Chars
  import opened StringSearch

  // ----------------------------------------------------------------- join

  /** The parts, in order, with `delimiter` between neighbours and nowhere else. */
  function Joined(parts: seq<string>, delimiter: string): string
    decreases |parts|
  {
    if |parts| == 0 then ""
    else if |parts| == 1 then parts[0]
    else parts[0] + delimiter + Joined(parts[1..], delimiter)
  }

  /** Appending a part adds one delimiter and that part at the end. */
  lemma {:induction false} JoinedSnoc(parts: seq<string>, last: string, delimiter: string)
    requires |parts| > 0
    ensures Joined(parts + [last], delimiter) == Joined(parts, delimiter) + delimiter + last
    decreases |parts|
  {
    if |parts| > 1 {
      assert (parts + [last])[1..] == parts[1..] + [last];
      JoinedSnoc(parts[1..], last, delimiter);
    }
  }

  /** Sum of the lengths of the parts. */
  function TotalLength(parts: seq<string>): nat
    decreases |parts|
  {
    if |parts| == 0 then 0 else |parts[0]| + TotalLength(parts[1..])
  }

  /** The joined string is as long as the parts together plus one delimiter per gap. */
  lemma {:induction false} JoinedLength(parts: seq<string>, delimiter: string)
    requires |parts| > 0
    ensures |Joined(parts, delimiter)| == TotalLength(parts) + (|parts| - 1) * |delimiter|
    decreases |parts|
  {
    if |parts| > 1 {
      JoinedLength(parts[1..], delimiter);
      assert (|parts| - 1) * |delimiter| == |delimiter| + (|parts| - 2) * |delimiter|;
    }
  }

  /**
   * The joined string begins with the first part and ends with the last, so
   * it has no leading or trailing delimiter of its own.
   */
  lemma {:induction false} JoinedEnds(parts: seq<string>, delimiter: string)
    requires |parts| > 0
    ensures StartWith(Joined(parts, delimiter), parts[0])
    ensures EndWith(Joined(parts, delimiter), parts[|parts| - 1])
    decreases |parts|
  {
    var r := Joined(parts, delimiter);
    if |parts| == 1 {
      assert [] + r == r;
    } else {
      var rest, last := Joined(parts[1..], delimiter), parts[|parts| - 1];
      JoinedEnds(parts[1..], delimiter);
      assert r == parts[0] + (delimiter + rest);
      assert r[..|parts[0]|] == parts[0];
      assert r[|r| - |last|..] == rest[|rest| - |last|..];
    }
  }

  /** `join(parts, delimiter)`: starts from the first part, then appends delimiter and part for each further part. */
  method Join(parts: seq<string>, delimiter: string) returns (result: string)
    ensures result == Joined(parts, delimiter)
  {
    if |parts| == 0 {
      return "";
    }
    result := parts[0];
    var i := 1;
    while i < |parts|
      invariant 1 <= i <= |parts|
      invariant result == Joined(parts[..i], delimiter)
    {
      JoinedSnoc(parts[..i], parts[i], delimiter);
      assert parts[..i] + [parts[i]] == parts[..i + 1];
      result := result + delimiter + parts[i];
      i := i + 1;
    }
    assert parts[..i] == parts;
  }

  // ---------------------------------------------------------------- split

  /**
   * The pieces of `s[start..]` cut at the occurrences of `delimiter` that a
   * left-to-right scan finds, each search resuming after the previous match.
   */
  function SplitFrom(s: string, delimiter: string, start: nat): seq<string>
    requires |delimiter| > 0 && start <= |s|
    decreases |s| - start
  {
    match Find(s, delimiter, start)
    case None => [s[start..]]
    case Some(e) => [s[start..e]] + SplitFrom(s, delimiter, e + |delimiter|)
  }

  /** What `split` returns: nothing for an empty string, an empty delimiter or a delimiter that never occurs. */
  function Pieces(s: string, delimiter: string): seq<string> {
    if |s| == 0 || |delimiter| == 0 || Find(s, delimiter, 0).None? then []
    else SplitFrom(s, delimiter, 0)
  }

  /** The number of non-overlapping occurrences a left-to-right scan from `from` finds. */
  function MatchCount(s: string, pat: string, from: nat): nat
    requires |pat| > 0 && from <= |s|
    decreases |s| - from
  {
    match Find(s, pat, from)
    case None => 0
    case Some(e) => 1 + MatchCount(s, pat, e + |pat|)
  }

  /** `split(s, delimiter)`: pushes the text before each match, then the remainder, unless nothing matched. */
  method Split(s: string, delimiter: string) returns (result: seq<string>)
    ensures result == Pieces(s, delimiter)
  {
    if |s| == 0 || |delimiter| == 0 {
      return [];
    }
    result := [];
    var start: nat := 0;
    var end := Find(s, delimiter, 0);
    while end.Some?
      invariant start <= |s|
      invariant end == Find(s, delimiter, start)
      invariant start == 0 || Find(s, delimiter, 0).Some?
      invariant result + SplitFrom(s, delimiter, start) == SplitFrom(s, delimiter, 0)
      decreases |s| - start
    {
      var e := end.value;
      var piece, next := s[start..e], e + |delimiter|;
      assert SplitFrom(s, delimiter, start) == [piece] + SplitFrom(s, delimiter, next);
      assert (result + [piece]) + SplitFrom(s, delimiter, next) == result + ([piece] + SplitFrom(s, delimiter, next));
      result := result + [piece];
      start := next;
      end := Find(s, delimiter, start);
    }
    if start == 0 {
      return [];
    }
    assert SplitFrom(s, delimiter, start) == [s[start..]];
    result := result + [s[start..]];
  }

  lemma {:induction false} SplitFromCount(s: string, delimiter: string, start: nat)
    requires |delimiter| > 0 && start <= |s|
    ensures |SplitFrom(s, delimiter, start)| == MatchCount(s, delimiter, start) + 1
    decreases |s| - start
  {
    match Find(s, delimiter, start)
    case None =>
    case Some(e) => SplitFromCount(s, delimiter, e + |delimiter|);
  }

  lemma {:induction false} SplitFromAvoids(s: string, delimiter: string, start: nat)
    requires |delimiter| > 0 && start <= |s|
    ensures forall i :: 0 <= i < |SplitFrom(s, delimiter, start)| ==> !Contain(SplitFrom(s, delimiter, start)[i], delimiter)
    decreases |s| - start
  {
    var r := SplitFrom(s, delimiter, start);
    FindFirst(s, delimiter, start);
    match Find(s, delimiter, start)
    case None =>
      WindowAvoids(s, delimiter, start, |s|);
      assert s[start..|s|] == s[start..];
    case Some(e) =>
      WindowAvoids(s, delimiter, start, e);
      var rest := SplitFrom(s, delimiter, e + |delimiter|);
      SplitFromAvoids(s, delimiter, e + |delimiter|);
      assert r == [s[start..e]] + rest;
      assert forall i :: 1 <= i < |r| ==> r[i] == rest[i - 1];
  }

  lemma {:induction false} SplitFromJoined(s: string, delimiter: string, start: nat)
    requires |delimiter| > 0 && start <= |s|
    ensures Joined(SplitFrom(s, delimiter, start), delimiter) == s[start..]
    decreases |s| - start
  {
    match Find(s, delimiter, start)
    case None =>
    case Some(e) =>
      var next := e + |delimiter|;
      var rest := SplitFrom(s, delimiter, next);
      SplitFromJoined(s, delimiter, next);
      SplitFromCount(s, delimiter, next);
      FindFirst(s, delimiter, start);
      assert SplitFrom(s, delimiter, start) == [s[start..e]] + rest;
      assert ([s[start..e]] + rest)[1..] == rest;
      assert s[e..next] == delimiter;
      assert s[start..] == s[start..e] + s[e..next] + s[next..];
  }

  /** `split` gives nothing exactly for an empty string, an empty delimiter, or a delimiter that does not occur. */
  lemma PiecesEmpty(s: string, delimiter: string)
    ensures Pieces(s, delimiter) == [] <==> |s| == 0 || |delimiter| == 0 || !Contain(s, delimiter)
  {
    if |s| > 0 && |delimiter| > 0 && Contain(s, delimiter) {
      SplitFromCount(s, delimiter, 0);
    }
  }

  /**
   * When `split` gives pieces: there is one more piece than there are
   * left-to-right matches, no piece contains the delimiter, and joining the
   * pieces with the delimiter gives back `s`.
   */
  lemma SplitProperties(s: string, delimiter: string)
    requires Pieces(s, delimiter) != []
    ensures |Pieces(s, delimiter)| == MatchCount(s, delimiter, 0) + 1 >= 2
    ensures forall i :: 0 <= i < |Pieces(s, delimiter)| ==> !Contain(Pieces(s, delimiter)[i], delimiter)
    ensures Joined(Pieces(s, delimiter), delimiter) == s
  {
    SplitFromCount(s, delimiter, 0);
    SplitFromAvoids(s, delimiter, 0);
    SplitFromJoined(s, delimiter, 0);
  }

  /** A two-character delimiter cuts the string into the text between its occurrences. */
  lemma SplitAtEachOccurrence()
    ensures Pieces("a::b::c", "::") == ["a", "b", "c"]
  {
    var s := "a::b::c";
    assert Find(s, "::", 6).None?;
    assert SplitFrom(s, "::", 6) == ["c"] by {
      assert s[6..] == "c";
    }
    assert s[4..6] == "::";
    assert Find(s, "::", 4) == Some(4);
    assert s[3..5][0] == 'b';
    assert Find(s, "::", 3) == Some(4);
    assert SplitFrom(s, "::", 3) == ["b", "c"] by {
      assert s[3..4] == "b";
    }
    assert s[1..3] == "::";
    assert Find(s, "::", 1) == Some(1);
    assert s[0..2][0] == 'a';
    assert Find(s, "::", 0) == Some(1);
    assert s[0..1] == "a";
  }

  /** Without an occurrence of the delimiter there are no pieces at all, not even the whole string. */
  lemma SplitWithoutOccurrence()
    ensures Pieces("ab", ",") == [] && Pieces("", ",") == []
  {
    var s := "ab";
    assert s[1..2][0] == 'b';
    assert s[0..1][0] == 'a';
  }

  // -------------------------------------------------------------- replace

  /**
   * `s[from..]` with every occurrence of `oldSub` that a left-to-right scan
   * finds replaced by `newSub`; each search resumes after the previous match
   * in the ORIGINAL text, so inserted text is never searched again.
   */
  function ReplacedFrom(s: string, oldSub: string, newSub: string, from: nat): string
    requires |oldSub| > 0 && from <= |s|
    decreases |s| - from
  {
    match Find(s, oldSub, from)
    case None => s[from..]
    case Some(i) => s[from..i] + newSub + ReplacedFrom(s, oldSub, newSub, i + |oldSub|)
  }

  function Replaced(s: string, oldSub: string, newSub: string): string
    requires |oldSub| > 0
  {
    ReplacedFrom(s, oldSub, newSub, 0)
  }

  /**
   * `replace(s, old_sub, new_sub)`: edits `s` in place at each match and
   * resumes the search right after the inserted text. The source loops
   * forever when `old_sub` is empty (the empty string is found at every
   * position), so callers must pass a non-empty `old_sub`.
   */
  method Replace(s: string, oldSub: string, newSub: string) returns (r: string)
    requires |oldSub| > 0
    ensures r == Replaced(s, oldSub, newSub)
  {
    r := s;
    var pos: nat := 0;
    // r is the finished text `done` followed by the untouched s[k..]
    ghost var goal, done, k: nat := Replaced(s, oldSub, newSub), "", 0;
    assert done + ReplacedFrom(s, oldSub, newSub, k) == goal;
    var found := Find(r, oldSub, pos);
    while found.Some?
      invariant k <= |s| && pos == |done| && r == done + s[k..]
      invariant done + ReplacedFrom(s, oldSub, newSub, k) == goal
      invariant found == Find(r, oldSub, pos)
      decreases |s| - k
    {
      var p := found.value;
      ghost var done', k' := ReplaceStep(s, oldSub, newSub, goal, r, done, k, p);
      r := r[..p] + newSub + r[p + |oldSub|..];
      pos := p + |newSub|;
      done, k := done', k';
      found := Find(r, oldSub, pos);
    }
    ReplaceDone(s, oldSub, newSub, goal, r, done, k);
  }

  /** When no match is left after the finished part, the rest of the text is kept as it is. */
  lemma ReplaceDone(s: string, oldSub: string, newSub: string, goal: string, r: string, done: string, k: nat)
    requires |oldSub| > 0 && k <= |s| && r == done + s[k..]
    requires done + ReplacedFrom(s, oldSub, newSub, k) == goal
    requires Find(r, oldSub, |done|).None?
    ensures r == goal
  {
    assert r[|done|..] == s[k..];
    FindShift(r, s, oldSub, |done|, k);
    assert ReplacedFrom(s, oldSub, newSub, k) == s[k..];
  }

  /**
   * One turn of `replace`'s loop. The text `r` is the finished part `done`
   * followed by the untouched `s[k..]`; the match found at `p` is the match
   * `e` in `s` moved by `|done| - k`, and editing there extends the finished
   * part by the text before the match and `newSub` without changing what the
   * whole replacement comes to.
   */
  lemma ReplaceStep(s: string, oldSub: string, newSub: string, goal: string, r: string, done: string, k: nat, p: nat)
    returns (done': string, k': nat)
    requires |oldSub| > 0 && k <= |s| && r == done + s[k..]
    requires done + ReplacedFrom(s, oldSub, newSub, k) == goal
    requires Find(r, oldSub, |done|) == Some(p)
    ensures k < k' <= |s| && |done'| == p + |newSub|
    ensures r[..p] + newSub + r[p + |oldSub|..] == done' + s[k'..]
    ensures done' + ReplacedFrom(s, oldSub, newSub, k') == goal
  {
    assert r[|done|..] == s[k..];
    FindShift(r, s, oldSub, |done|, k);
    var e := Find(s, oldSub, k).value;
    ReplaceStepText(s, oldSub, newSub, r, p, done, k, e);
    done', k' := done + s[k..e] + newSub, e + |oldSub|;
    ReplacedFromMatch(s, oldSub, newSub, k, e, k');
    ConcatStep(done, s[k..e], newSub, ReplacedFrom(s, oldSub, newSub, k'),
               ReplacedFrom(s, oldSub, newSub, k), goal, done');
  }

  /** Editing the text at the match rebuilds it as the longer finished part followed by the rest of `s`. */
  lemma ReplaceStepText(s: string, oldSub: string, newSub: string, r: string, p: nat, done: string, k: nat, e: nat)
    requires k <= e && e + |oldSub| <= |s| && r == done + s[k..] && p == |done| + (e - k)
    ensures r[..p] + newSub + r[p + |oldSub|..] == (done + s[k..e] + newSub) + s[e + |oldSub|..]
  {
    SliceOfConcat(done, s[k..], e - k);
    SliceOfConcat(done, s[k..], e - k + |oldSub|);
    assert s[k..][..e - k] == s[k..e];
    assert s[k..][e - k + |oldSub|..] == s[e + |oldSub|..];
  }

  /** A match at `e` contributes the text before it and `newSub`; the scan goes on after the match. */
  lemma ReplacedFromMatch(s: string, oldSub: string, newSub: string, k: nat, e: nat, next: nat)
    requires |oldSub| > 0 && k <= |s| && Find(s, oldSub, k) == Some(e) && next == e + |oldSub|
    ensures ReplacedFrom(s, oldSub, newSub, k) == s[k..e] + newSub + ReplacedFrom(s, oldSub, newSub, next)
  {
  }

  /** Moving two pieces from the pending part into the finished part keeps the whole. */
  lemma ConcatStep<T>(done: seq<T>, a: seq<T>, b: seq<T>, rest: seq<T>, pending: seq<T>, whole: seq<T>, done': seq<T>)
    requires pending == a + b + rest && done + pending == whole && done' == done + a + b
    ensures done' + rest == whole
  {
    assert done + (a + b + rest) == (done + a + b) + rest;
  }

  /** Cutting a concatenation inside its second half. */
  lemma SliceOfConcat<T>(a: seq<T>, b: seq<T>, i: nat)
    requires i <= |b|
    ensures (a + b)[..|a| + i] == a + b[..i]
    ensures (a + b)[|a| + i..] == b[i..]
  {
  }

  lemma {:induction false} ReplacedFromJoined(s: string, oldSub: string, newSub: string, from: nat)
    requires |oldSub| > 0 && from <= |s|
    ensures ReplacedFrom(s, oldSub, newSub, from) == Joined(SplitFrom(s, oldSub, from), newSub)
    decreases |s| - from
  {
    match Find(s, oldSub, from)
    case None =>
    case Some(i) =>
      var next := i + |oldSub|;
      var rest := SplitFrom(s, oldSub, next);
      ReplacedFromJoined(s, oldSub, newSub, next);
      SplitFromCount(s, oldSub, next);
      assert ([s[from..i]] + rest)[1..] == rest;
  }

  /**
   * `replace(s, o, n)` is `join(split(s, o), n)`: the text between matches is
   * kept and every match becomes `n`; when `o` does not occur (or `s` is
   * empty) the result is `s` itself.
   */
  lemma ReplaceIsJoinOfSplit(s: string, oldSub: string, newSub: string)
    requires |oldSub| > 0
    ensures Replaced(s, oldSub, newSub) == if Pieces(s, oldSub) == [] then s else Joined(Pieces(s, oldSub), newSub)
  {
    ReplacedFromJoined(s, oldSub, newSub, 0);
  }

  /** Replacing a pattern by itself changes nothing. */
  lemma ReplaceWithItself(s: string, sub: string)
    requires |sub| > 0
    ensures Replaced(s, sub, sub) == s
  {
    ReplacedFromJoined(s, sub, sub, 0);
    SplitFromJoined(s, sub, 0);
  }

  lemma {:induction false} ReplacedFromLength(s: string, oldSub: string, newSub: string, from: nat)
    requires |oldSub| > 0 && from <= |s|
    ensures |ReplacedFrom(s, oldSub, newSub, from)| == |s| - from + MatchCount(s, oldSub, from) * (|newSub| - |oldSub|)
    decreases |s| - from
  {
    match Find(s, oldSub, from)
    case None =>
    case Some(i) =>
      var next := i + |oldSub|;
      ReplacedFromLength(s, oldSub, newSub, next);
      ReplacedFromMatch(s, oldSub, newSub, from, i, next);
      var m, d := MatchCount(s, oldSub, next), |newSub| - |oldSub|;
      assert MatchCount(s, oldSub, from) == 1 + m;
      Distribute(m, d);
  }

  lemma Distribute(m: int, d: int)
    ensures (1 + m) * d == d + m * d
  {
  }

  /** Each of the matches the scan finds changes the length by `|newSub| - |oldSub|`. */
  lemma ReplacedLength(s: string, oldSub: string, newSub: string)
    requires |oldSub| > 0
    ensures |Replaced(s, oldSub, newSub)| == |s| + MatchCount(s, oldSub, 0) * (|newSub| - |oldSub|)
  {
    ReplacedFromLength(s, oldSub, newSub, 0);
  }

  /** Matches are replaced left to right, each one once. */
  lemma ReplaceEveryMatch()
    ensures Replaced("banana", "na", "no") == "banono"
  {
    var s := "banana";
    assert s[4..6] == "na";
    assert Find(s, "na", 4) == Some(4);
    assert ReplacedFrom(s, "na", "no", 4) == "no" by {
      assert s[4..4] == "" && s[6..] == "";
    }
    assert s[2..4] == "na";
    assert Find(s, "na", 2) == Some(2);
    assert s[1..3][0] == 'a';
    assert Find(s, "na", 1) == Some(2);
    assert s[0..2][0] == 'b';
    assert Find(s, "na", 0) == Some(2);
    assert s[0..2] == "ba";
  }

  /** Text that `newSub` inserts is not searched again, even when it contains `oldSub`. */
  lemma ReplaceSkipsInsertedText()
    ensures Replaced("aa", "a", "aa") == "aaaa"
  {
    var s := "aa";
    assert s[1..2] == "a";
    assert Find(s, "a", 1) == Some(1);
    assert ReplacedFrom(s, "a", "aa", 1) == "aa" by {
      assert s[1..1] == "" && s[2..] == "";
    }
    assert s[0..1] == "a";
    assert Find(s, "a", 0) == Some(0);
    assert s[0..0] == "";
  }

  /** An occurrence that only forms across an insertion is not matched. */
  lemma ReplaceIgnoresNewOccurrences()
    ensures Replaced("aab", "ab", "b") == "ab"
  {
    var s := "aab";
    assert s[1..3] == "ab";
    assert Find(s, "ab", 1) == Some(1);
    assert s[0..2][1] == 'a';
    assert Find(s, "ab", 0) == Some(1);
    assert ReplacedFrom(s, "ab", "b", 3) == "" by {
      assert s[3..] == "";
    }
    assert s[0..1] == "a";
  }

  // ----------------------------------------------------------------- trim

  /** The position `std::find_if_not(s.begin(), s.end(), ::isspace)` finds. */
  function LeadingSpaces(s: string): (n: nat)
    ensures n <= |s|
    ensures forall k :: 0 <= k < n ==> IsSpace(s[k])
    ensures n < |s| ==> !IsSpace(s[n])
    decreases |s|
  {
    if |s| == 0 || !IsSpace(s[0]) then 0 else 1 + LeadingSpaces(s[1..])
  }

  /** How many characters the reverse search `std::find_if_not(s.rbegin(), s.rend(), ::isspace)` skips. */
  function TrailingSpaces(s: string): (n: nat)
    ensures n <= |s|
    ensures forall k :: |s| - n <= k < |s| ==> IsSpace(s[k])
    ensures n < |s| ==> !IsSpace(s[|s| - 1 - n])
    decreases |s|
  {
    if |s| == 0 || !IsSpace(s[|s| - 1]) then 0 else 1 + TrailingSpaces(s[..|s| - 1])
  }

  /** `r` is `s[i..i + |r|]`, and everything of `s` outside that window is space. */
  predicate TrimmedAt(s: string, r: string, i: nat) {
    i + |r| <= |s| && s[i..i + |r|] == r
    && (forall k :: 0 <= k < i ==> IsSpace(s[k]))
    && (forall k :: i + |r| <= k < |s| ==> IsSpace(s[k]))
  }

  predicate HasNonSpace(s: string) {
    exists i :: 0 <= i < |s| && !IsSpace(s[i])
  }

  /**
   * The iterator pair `trim` builds its result from, as offsets: the first
   * non-space character and one past the last non-space character.
   */
  function TrimRange(s: string): (bounds: (nat, nat))
    ensures bounds.0 <= |s| && bounds.1 <= |s|
  {
    (LeadingSpaces(s), |s| - TrailingSpaces(s))
  }

  /** The pair is in order exactly when the string is empty or holds a non-space. */
  lemma TrimRangeOrdered(s: string)
    ensures TrimRange(s).0 <= TrimRange(s).1 <==> |s| == 0 || HasNonSpace(s)
    ensures HasNonSpace(s) ==> TrimRange(s).0 < TrimRange(s).1
  {
    var first, last := LeadingSpaces(s), |s| - TrailingSpaces(s);
    if HasNonSpace(s) {
      var w :| 0 <= w < |s| && !IsSpace(s[w]);
      assert first <= w < last;
    } else {
      SpacesOnly(s);
    }
  }

  /**
   * As written, a non-empty string of white space only puts the pair the
   * wrong way round: the result is built from `[end(), begin())`, which is
   * undefined behaviour.
   */
  lemma TrimRangeInverted(s: string)
    requires |s| > 0 && forall k :: 0 <= k < |s| ==> IsSpace(s[k])
    ensures TrimRange(s) == (|s|, 0)
  {
    SpacesOnly(s);
  }

  /** Both scans run through a string of white space only. */
  lemma {:induction false} SpacesOnly(s: string)
    requires forall k :: 0 <= k < |s| ==> IsSpace(s[k])
    ensures LeadingSpaces(s) == |s| && TrailingSpaces(s) == |s|
    decreases |s|
  {
    if |s| > 0 {
      SpacesOnly(s[1..]);
      SpacesOnly(s[..|s| - 1]);
    }
  }

  /**
   * `trim(s)`: the text between the first and the last non-space character,
   * and the empty string when there is none (where the source, as written,
   * has undefined behaviour).
   */
  function Trim(s: string): (r: string)
    ensures |r| == 0 <==> !HasNonSpace(s)
    ensures |r| > 0 ==> !IsSpace(r[0]) && !IsSpace(r[|r| - 1])
    ensures exists i :: TrimmedAt(s, r, i)
  {
    TrimRangeOrdered(s);
    var (first, last) := TrimRange(s);
    if first < last then
      assert TrimmedAt(s, s[first..last], first);
      s[first..last]
    else
      assert TrimmedAt(s, "", 0);
      ""
  }

  /** Trimming twice is trimming once. */
  lemma TrimIdempotent(s: string)
    ensures Trim(Trim(s)) == Trim(s)
  {
    var r := Trim(s);
    if |r| > 0 {
      assert !IsSpace(r[0]) && !IsSpace(r[|r| - 1]);
      assert LeadingSpaces(r) == 0;
      assert TrailingSpaces(r) == 0;
      assert r[0..|r|] == r;
    }
  }

  /** Tabs on either side go. */
  lemma TrimTabs()
    ensures Trim("\thello\t") == "hello"
  {
    var s := "\thello\t";
    assert s[1..][0] == 'h' && s[..6][5] == 'o';
    assert s[1..6] == "hello";
  }

  /** Spaces on either side go; a space inside stays. */
  lemma TrimKeepsInnerSpace()
    ensures Trim(" a b ") == "a b"
  {
    var s := " a b ";
    assert s[1..][0] == 'a' && s[..4][3] == 'b';
    assert s[1..4] == "a b";
  }

  /** The empty string trims to "". */
  lemma TrimOfEmpty()
    ensures Trim("") == ""
  {
  }

  /** A string of white space only trims to "" (the source's range is inverted there, see `TrimRangeInverted`). */
  lemma TrimOfSpaces()
    ensures Trim("  ") == "" && Trim(" \t\n") == ""
  {
    SpacesOnly("  ");
    SpacesOnly(" \t\n");
  }

  // ------------------------------------------------------------- is_digit

  /** The text after an optional leading '-'. */
  function Unsigned(text: string): string
    requires |text| > 0
  {
    if text[0] == '-' then text[1..] else text
  }

  /** Only ASCII digits and at most one '.'. */
  predicate DigitsAndPoint(body: string) {
    (forall i :: 0 <= i < |body| ==> body[i] == '.' || IsAsciiDigit(body[i])) &&
    (forall i, j :: 0 <= i < j < |body| && body[i] == '.' ==> body[j] != '.')
  }

  /**
   * The strings `is_digit` accepts: non-empty, and after an optional leading
   * '-' only ASCII digits and at most one '.'. Nothing requires a digit.
   */
  predicate IsNumeral(text: string) {
    |text| > 0 && DigitsAndPoint(Unsigned(text))
  }

  /** `is_digit(ss)`: drops a leading '-', then scans with a flag recording whether a '.' was seen. */
  method IsDigit(ss: string) returns (b: bool)
    ensures b == IsNumeral(ss)
  {
    if |ss| == 0 {
      return false;
    }
    var s := ss;
    if s[0] == '-' {
      s := s[1..];
    }
    assert s == Unsigned(ss);
    var hasDecimalPoint := false;
    var i := 0;
    while i < |s|
      invariant 0 <= i <= |s|
      invariant forall k :: 0 <= k < i ==> s[k] == '.' || IsAsciiDigit(s[k])
      invariant forall k, m :: 0 <= k < m < i && s[k] == '.' ==> s[m] != '.'
      invariant hasDecimalPoint <==> exists k :: 0 <= k < i && s[k] == '.'
    {
      var c := s[i];
      if c == '.' {
        if hasDecimalPoint {
          var k :| 0 <= k < i && s[k] == '.';
          assert !DigitsAndPoint(s) by {
            assert 0 <= k < i < |s| && s[k] == '.' && s[i] == '.';
          }
          return false;
        }
        hasDecimalPoint := true;
      } else if !IsAsciiDigit(c) {
        assert !DigitsAndPoint(s) by {
          assert !(s[i] == '.' || IsAsciiDigit(s[i]));
        }
        return false;
      }
      i := i + 1;
    }
    return true;
  }

  /** As written, a lone sign and a lone decimal point both pass. */
  lemma LoneSignOrPointAccepted()
    ensures IsNumeral("-") && IsNumeral(".") && IsNumeral("-.")
  {
    assert Unsigned("-") == "";
    assert Unsigned("-.") == ".";
  }

  lemma IntegerAndDecimalAccepted()
    ensures IsNumeral("-123") && IsNumeral("1.23")
  {
    assert Unsigned("-123") == "123";
  }

  lemma SecondPointRefused()
    ensures !IsNumeral("1.2.3")
  {
    assert "1.2.3"[1] == '.' && "1.2.3"[3] == '.';
  }

  /** A string with a character that is neither a digit nor '.', or with no character at all, is refused. */
  lemma OtherCharactersRefused()
    ensures !IsNumeral("") && !IsNumeral(" ") && !IsNumeral("123a45")
  {
    assert " "[0] == ' ';
    assert "123a45"[3] == 'a';
  }

  /** Only one leading '-' is erased; a second one is an ordinary non-digit. */
  lemma SecondSignRefused()
    ensures !IsNumeral("--1") && !IsNumeral("-1-")
  {
    assert Unsigned("--1")[0] == '-';
    assert Unsigned("-1-")[1] == '-';
  }
}

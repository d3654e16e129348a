/**
  The four regular expressions `AnalyzeText` counts with, and the way
  `Regex.Matches` walks a text with them: it tries the pattern at a position;
  on a match it records it and resumes at the match's end, otherwise it moves
  one character on. None of the four patterns matches the empty string.

  The `\w` class is a parameter (`isWordChar`); `\b` is taken to use the same
  class.
 */
module TextStatistics {
  import opened Wrappers

  type WordClass = char -> bool

  /** `\b\w+\b`, a character class repeated (`[.!?]+`), or one literal
      character (`\?`, `!`). */
  datatype Pattern =
    | WordRun
    | ClassRun(chars: set<char>)
    | Literal(c: char)

  const WordPattern: Pattern := WordRun
  const SentencePattern: Pattern := ClassRun({'.', '!', '?'})
  const QuestionPattern: Pattern := Literal('?')
  const ExclamationPattern: Pattern := Literal('!')

  /** The characters the pattern is built from. */
  predicate InClass(pat: Pattern, isWordChar: WordClass, c: char) {
    match pat
    case WordRun => isWordChar(c)
    case ClassRun(chars) => c in chars
    case Literal(l) => c == l
  }

  /** Patterns that match a whole run of class characters. */
  predicate IsRunPattern(pat: Pattern) {
    !pat.Literal?
  }

  /** A match as the half-open span `[start, end)` of the text. */
  datatype Match = Match(start: nat, end: nat)

  /** Where the run of class characters starting at `i` ends: greedy `+`. */
  function RunEnd(s: string, pat: Pattern, isWordChar: WordClass, i: nat): (e: nat)
    requires i <= |s|
    ensures i <= e <= |s|
    ensures forall k :: i <= k < e ==> InClass(pat, isWordChar, s[k])
    ensures e == |s| || !InClass(pat, isWordChar, s[e])
    decreases |s| - i
  {
    if i < |s| && InClass(pat, isWordChar, s[i]) then RunEnd(s, pat, isWordChar, i + 1) else i
  }

  /** The end of the match the engine finds when it tries the pattern at `i`.
      For `\b\w+\b` the leading `\b` needs a non-word character (or the start
      of the text) before `i`; the trailing one always holds after a greedy
      run, so no backtracking is needed. */
  function MatchAt(s: string, pat: Pattern, isWordChar: WordClass, i: nat): (r: Option<nat>)
    requires i <= |s|
    ensures r.Some? ==> i < r.value <= |s| && InClass(pat, isWordChar, s[i])
  {
    if i == |s| || !InClass(pat, isWordChar, s[i]) then None
    else
      match pat
      case WordRun =>
        if i == 0 || !isWordChar(s[i - 1]) then Some(RunEnd(s, pat, isWordChar, i)) else None
      case ClassRun(_) => Some(RunEnd(s, pat, isWordChar, i))
      case Literal(_) => Some(i + 1)
  }

  /** `Regex.Matches` from position `i` on. There is at most one match per
      character. */
  function MatchesFrom(s: string, pat: Pattern, isWordChar: WordClass, i: nat): (ms: seq<Match>)
    requires i <= |s|
    ensures |ms| <= |s| - i
    decreases |s| - i
  {
    if i == |s| then []
    else
      match MatchAt(s, pat, isWordChar, i)
      case Some(e) => [Match(i, e)] + MatchesFrom(s, pat, isWordChar, e)
      case None => MatchesFrom(s, pat, isWordChar, i + 1)
  }

  /** `Regex.Matches(s, pattern).Count`, which is at most the length. */
  function CountMatches(s: string, pat: Pattern, isWordChar: WordClass): (n: nat)
    ensures n <= |s|
  {
    |MatchesFrom(s, pat, isWordChar, 0)|
  }

  /** `m` is a maximal run of class characters of `s`. */
  predicate IsMaximalRun(s: string, pat: Pattern, isWordChar: WordClass, m: Match) {
    && m.start < m.end <= |s|
    && (forall k :: m.start <= k < m.end ==> InClass(pat, isWordChar, s[k]))
    && (m.start == 0 || !InClass(pat, isWordChar, s[m.start - 1]))
    && (m.end == |s| || !InClass(pat, isWordChar, s[m.end]))
  }

  /** `ms` are maximal runs starting at or after `lo`, each ending before
      the next begins. */
  predicate SeparatedRunsFrom(s: string, pat: Pattern, isWordChar: WordClass, ms: seq<Match>, lo: nat) {
    && (forall a :: 0 <= a < |ms| ==> lo <= ms[a].start && IsMaximalRun(s, pat, isWordChar, ms[a]))
    && (forall a :: 0 <= a < |ms| - 1 ==> ms[a].end < ms[a + 1].start)
  }

  /** Position `k` lies in one of the spans `ms`. */
  predicate Covered(ms: seq<Match>, k: nat) {
    exists a :: 0 <= a < |ms| && ms[a].start <= k < ms[a].end
  }

  /** Position `i` does not split a run of class characters. Every position
      the scan reaches is of this kind. */
  predicate NotInsideRun(s: string, pat: Pattern, isWordChar: WordClass, i: nat)
    requires i <= |s|
  {
    i == 0 || i == |s| || !InClass(pat, isWordChar, s[i - 1]) || !InClass(pat, isWordChar, s[i])
  }

  /** Where a run pattern fails at a position the scan reaches, the character
      there is not in the class, so the next position is reached as well. */
  lemma SkippedIsNotInClass(s: string, pat: Pattern, isWordChar: WordClass, i: nat)
    requires IsRunPattern(pat) && i < |s| && NotInsideRun(s, pat, isWordChar, i)
    requires MatchAt(s, pat, isWordChar, i).None?
    ensures !InClass(pat, isWordChar, s[i]) && NotInsideRun(s, pat, isWordChar, i + 1)
  {
    if pat.WordRun? && i > 0 {
      assert InClass(pat, isWordChar, s[i - 1]) == isWordChar(s[i - 1]);
    }
  }

  /** A maximal run ending before a list of separated runs begins can be put
      in front of them. */
  lemma PrependRun(s: string, pat: Pattern, isWordChar: WordClass, m: Match, rest: seq<Match>)
    requires IsMaximalRun(s, pat, isWordChar, m)
    requires SeparatedRunsFrom(s, pat, isWordChar, rest, m.end)
    ensures SeparatedRunsFrom(s, pat, isWordChar, [m] + rest, m.start)
  {
    var ms := [m] + rest;
    if |rest| > 0 {
      assert IsMaximalRun(s, pat, isWordChar, rest[0]);
      assert m.end < rest[0].start;
    }
    assert forall a :: 0 < a < |ms| ==> ms[a] == rest[a - 1];
  }

  /** For a run pattern the matches found from `i` on are maximal runs after
      `i`, from left to right, each separated from the next. */
  lemma {:induction false} RunMatchesFrom(s: string, pat: Pattern, isWordChar: WordClass, i: nat)
    requires IsRunPattern(pat) && i <= |s| && NotInsideRun(s, pat, isWordChar, i)
    ensures SeparatedRunsFrom(s, pat, isWordChar, MatchesFrom(s, pat, isWordChar, i), i)
    decreases |s| - i
  {
    if i < |s| {
      match MatchAt(s, pat, isWordChar, i)
      case Some(e) =>
        assert e == RunEnd(s, pat, isWordChar, i);
        RunMatchesFrom(s, pat, isWordChar, e);
        assert IsMaximalRun(s, pat, isWordChar, Match(i, e));
        PrependRun(s, pat, isWordChar, Match(i, e), MatchesFrom(s, pat, isWordChar, e));
      case None =>
        SkippedIsNotInClass(s, pat, isWordChar, i);
        RunMatchesFrom(s, pat, isWordChar, i + 1);
    }
  }

  /** Every class character after `i` lies in a match found from `i` on. */
  lemma {:induction false} RunMatchesCover(s: string, pat: Pattern, isWordChar: WordClass, i: nat, k: nat)
    requires IsRunPattern(pat) && i <= k < |s| && NotInsideRun(s, pat, isWordChar, i)
    requires InClass(pat, isWordChar, s[k])
    ensures Covered(MatchesFrom(s, pat, isWordChar, i), k)
    decreases |s| - i
  {
    var ms := MatchesFrom(s, pat, isWordChar, i);
    match MatchAt(s, pat, isWordChar, i)
    case Some(e) =>
      var rest := MatchesFrom(s, pat, isWordChar, e);
      assert ms == [Match(i, e)] + rest;
      if k < e {
        assert ms[0].start <= k < ms[0].end;
      } else {
        assert e < |s|;
        assert e == RunEnd(s, pat, isWordChar, i);
        RunMatchesCover(s, pat, isWordChar, e, k);
        var a :| 0 <= a < |rest| && rest[a].start <= k < rest[a].end;
        assert ms[a + 1] == rest[a];
      }
    case None =>
      SkippedIsNotInClass(s, pat, isWordChar, i);
      assert ms == MatchesFrom(s, pat, isWordChar, i + 1);
      RunMatchesCover(s, pat, isWordChar, i + 1, k);
  }

  /** `k` is where a maximal run of class characters begins. */
  predicate IsRunStart(s: string, pat: Pattern, isWordChar: WordClass, k: nat)
    requires k < |s|
  {
    InClass(pat, isWordChar, s[k]) && (k == 0 || !InClass(pat, isWordChar, s[k - 1]))
  }

  /** The number of maximal runs that begin at or after `i`. */
  function RunStartsFrom(s: string, pat: Pattern, isWordChar: WordClass, i: nat): (n: nat)
    requires i <= |s|
    ensures n <= |s| - i
    decreases |s| - i
  {
    if i == |s| then 0
    else (if IsRunStart(s, pat, isWordChar, i) then 1 else 0) + RunStartsFrom(s, pat, isWordChar, i + 1)
  }

  /** The number of class characters at or after `i`. */
  function ClassCountFrom(s: string, pat: Pattern, isWordChar: WordClass, i: nat): (n: nat)
    requires i <= |s|
    ensures n <= |s| - i
    decreases |s| - i
  {
    if i == |s| then 0
    else (if InClass(pat, isWordChar, s[i]) then 1 else 0) + ClassCountFrom(s, pat, isWordChar, i + 1)
  }

  /** Inside a run no new run begins. */
  lemma {:induction false} NoRunStartsInside(s: string, pat: Pattern, isWordChar: WordClass, j: nat, e: nat)
    requires 0 < j <= e <= |s|
    requires forall k :: j - 1 <= k < e ==> InClass(pat, isWordChar, s[k])
    ensures RunStartsFrom(s, pat, isWordChar, j) == RunStartsFrom(s, pat, isWordChar, e)
    decreases e - j
  {
    if j < e {
      assert !IsRunStart(s, pat, isWordChar, j);
      NoRunStartsInside(s, pat, isWordChar, j + 1, e);
    }
  }

  /** For a run pattern the scan finds one match per maximal run. */
  lemma {:induction false} RunCountFrom(s: string, pat: Pattern, isWordChar: WordClass, i: nat)
    requires IsRunPattern(pat) && i <= |s| && NotInsideRun(s, pat, isWordChar, i)
    ensures |MatchesFrom(s, pat, isWordChar, i)| == RunStartsFrom(s, pat, isWordChar, i)
    decreases |s| - i
  {
    if i < |s| {
      match MatchAt(s, pat, isWordChar, i)
      case Some(e) =>
        assert e == RunEnd(s, pat, isWordChar, i);
        assert IsRunStart(s, pat, isWordChar, i);
        NoRunStartsInside(s, pat, isWordChar, i + 1, e);
        RunCountFrom(s, pat, isWordChar, e);
      case None =>
        SkippedIsNotInClass(s, pat, isWordChar, i);
        RunCountFrom(s, pat, isWordChar, i + 1);
    }
  }

  /** Every run begins with a class character. */
  lemma {:induction false} RunStartsAtMostClassCount(s: string, pat: Pattern, isWordChar: WordClass, i: nat)
    requires i <= |s|
    ensures RunStartsFrom(s, pat, isWordChar, i) <= ClassCountFrom(s, pat, isWordChar, i)
    decreases |s| - i
  {
    if i < |s| {
      RunStartsAtMostClassCount(s, pat, isWordChar, i + 1);
    }
  }

  /** The matches of a run pattern are the maximal runs of the text, in
      order, separated, and covering every class character; there are as
      many as there are run beginnings. */
  lemma MatchesAreMaximalRuns(s: string, pat: Pattern, isWordChar: WordClass)
    requires IsRunPattern(pat)
    ensures SeparatedRunsFrom(s, pat, isWordChar, MatchesFrom(s, pat, isWordChar, 0), 0)
    ensures forall k :: 0 <= k < |s| && InClass(pat, isWordChar, s[k]) ==>
              Covered(MatchesFrom(s, pat, isWordChar, 0), k)
    ensures CountMatches(s, pat, isWordChar) == RunStartsFrom(s, pat, isWordChar, 0)
  {
    RunMatchesFrom(s, pat, isWordChar, 0);
    forall k | 0 <= k < |s| && InClass(pat, isWordChar, s[k])
      ensures Covered(MatchesFrom(s, pat, isWordChar, 0), k)
    {
      RunMatchesCover(s, pat, isWordChar, 0, k);
    }
    RunCountFrom(s, pat, isWordChar, 0);
  }

  /** A run pattern matches somewhere exactly when the text holds one of its
      characters, and never more often than it has such characters. */
  lemma RunCountBounds(s: string, pat: Pattern, isWordChar: WordClass)
    requires IsRunPattern(pat)
    ensures CountMatches(s, pat, isWordChar) > 0 <==> exists k :: 0 <= k < |s| && InClass(pat, isWordChar, s[k])
    ensures CountMatches(s, pat, isWordChar) <= ClassCountFrom(s, pat, isWordChar, 0)
  {
    var ms := MatchesFrom(s, pat, isWordChar, 0);
    MatchesAreMaximalRuns(s, pat, isWordChar);
    RunStartsAtMostClassCount(s, pat, isWordChar, 0);
    if |ms| > 0 {
      assert forall a :: 0 <= a < |ms| ==> IsMaximalRun(s, pat, isWordChar, ms[a]);
      assert InClass(pat, isWordChar, s[ms[0].start]);
    }
  }

  /** A literal pattern matches once per occurrence of its character. */
  lemma {:induction false} LiteralCountFrom(s: string, c: char, isWordChar: WordClass, i: nat)
    requires i <= |s|
    ensures |MatchesFrom(s, Literal(c), isWordChar, i)| == multiset(s[i..])[c]
    decreases |s| - i
  {
    if i < |s| {
      assert s[i..] == [s[i]] + s[i + 1..];
      LiteralCountFrom(s, c, isWordChar, i + 1);
    }
  }

  /** `Regex.Matches(s, @"\?").Count` and `Regex.Matches(s, "!").Count`
      count the character's occurrences. */
  lemma LiteralCount(s: string, c: char, isWordChar: WordClass)
    ensures CountMatches(s, Literal(c), isWordChar) == multiset(s)[c]
  {
    LiteralCountFrom(s, c, isWordChar, 0);
    assert s[0..] == s;
  }
}

/**
 * How one data line of an expectations file is split into its five fields (the `MATCHER`
 * pattern and `_parse_expectation_line_into_components` in typ/expectations_parser.py):
 *
 *   <bug> <bug> ... [ <tags> ] <test> [ <results> ]<whitespace># comment
 *
 * The split is written as the backtracking search a regular-expression engine makes, trying the
 * alternatives in the order the pattern gives them priority: as many bug references as
 * possible, then a tag block ending at the last possible ` ] `, then the test up to the next
 * space, then a result block ending at the last possible ` ]`, then an optional comment. A bug
 * reference is one of `crbug.com/`, `skbug.com/`, `webkit.org/` or `b/` (the `.` standing for
 * any character), an optional subproject, decimal digits and one whitespace character. The
 * subproject (the pattern's `[^/]` run and its `/`) runs over anything up to the next `/`,
 * whitespace and other references included; the reference is tried with it first and without
 * it second.
 */
module DataLine {
  import opened Wrappers
  import opened Text

  /** The fields of a data line, as positions into it (`None` for an absent optional field). */
  datatype Fields = Fields(
    bugsEnd: nat,                 // the bug references occupy line[..bugsEnd]
    lastBug: Option<(nat, nat)>,  // the span of the last bug reference, trailing whitespace included
    tags: Option<string>,         // the text between `[ ` and ` ] `
    test: string,
    results: string,              // the text between `[ ` and ` ]`
    comment: string)              // the trailing comment with its leading whitespace, or empty

  predicate IsDigit(c: char) {
    '0' <= c <= '9'
  }

  /** `pat` occurs at `i`, where a `.` in `pat` stands for any character. */
  predicate PatternAt(line: string, i: nat, pat: string) {
    i + |pat| <= |line| && forall k | 0 <= k < |pat| :: pat[k] == '.' || line[i + k] == pat[k]
  }

  /** The length of the bug-tracker prefix at `i`, or 0 when there is none. */
  function BugPrefixLength(line: string, i: nat): (n: nat)
    ensures n == 0 || (i + n <= |line| && !IsSpace(line[i]))
  {
    if PatternAt(line, i, "crbug.com/") then PatternHead(line, i, "crbug.com/"); 10
    else if PatternAt(line, i, "skbug.com/") then PatternHead(line, i, "skbug.com/"); 10
    else if PatternAt(line, i, "webkit.org/") then PatternHead(line, i, "webkit.org/"); 11
    else if PatternAt(line, i, "b/") then PatternHead(line, i, "b/"); 2
    else 0
  }

  /** A pattern that does not start with `.` starts with the character it matches. */
  lemma PatternHead(line: string, i: nat, pat: string)
    requires PatternAt(line, i, pat) && pat != [] && pat[0] != '.'
    ensures line[i] == pat[0]
  {
    assert pat[0] == '.' || line[i + 0] == pat[0];
  }

  /** A pattern does not occur where one of its characters other than `.` differs. */
  lemma PatternMismatch(line: string, i: nat, pat: string, k: nat)
    requires k < |pat| && pat[k] != '.' && i + k < |line| && line[i + k] != pat[k]
    ensures !PatternAt(line, i, pat)
  {
  }

  /** `b/` is the only prefix a line can have at a `b`. */
  lemma BugPrefixAtB(line: string, i: nat)
    requires i + 1 < |line| && line[i] == 'b' && line[i + 1] == '/'
    ensures BugPrefixLength(line, i) == 2
  {
    PatternMismatch(line, i, "crbug.com/", 0);
    PatternMismatch(line, i, "skbug.com/", 0);
    PatternMismatch(line, i, "webkit.org/", 0);
    assert PatternAt(line, i, "b/");
  }

  /** No prefix starts with a character other than `c`, `s`, `w` or `b`. */
  lemma NoBugPrefix(line: string, i: nat)
    requires i < |line| && line[i] != 'c' && line[i] != 's' && line[i] != 'w' && line[i] != 'b'
    ensures BugPrefixLength(line, i) == 0
  {
    PatternMismatch(line, i, "crbug.com/", 0);
    PatternMismatch(line, i, "skbug.com/", 0);
    PatternMismatch(line, i, "webkit.org/", 0);
    PatternMismatch(line, i, "b/", 0);
  }

  /** The first index at or after `i` whose character is not a decimal digit. */
  function DigitsEnd(line: string, i: nat): (j: nat)
    requires i <= |line|
    ensures i <= j <= |line| && (j < |line| ==> !IsDigit(line[j]))
    ensures j > i ==> IsDigit(line[j - 1])
    decreases |line| - i
  {
    if i < |line| && IsDigit(line[i]) then DigitsEnd(line, i + 1) else i
  }

  /** The first index at or after `i` holding `/`, or `|line|`: `[^/]*` runs over everything else. */
  function SubprojectEnd(line: string, i: nat): (j: nat)
    requires i <= |line|
    ensures i <= j <= |line| && (j < |line| ==> line[j] == '/')
    ensures forall k | i <= k < j :: line[k] != '/'
    decreases |line| - i
  {
    if i < |line| && line[i] != '/' then SubprojectEnd(line, i + 1) else i
  }

  /** Digits followed by one whitespace character starting at `i`: the index after them. */
  function NumberEnd(line: string, i: nat): (r: Option<nat>)
    requires i <= |line|
    ensures r.Some? ==> i + 2 <= r.value <= |line| && IsDigit(line[r.value - 2]) && IsSpace(line[r.value - 1])
  {
    var d := DigitsEnd(line, i);
    if d > i && d < |line| && IsSpace(line[d]) then Some(d + 1) else None
  }

  /**
   * The end of the bug reference at `i` taken with a subproject, the alternative the pattern
   * tries first: the prefix, everything up to the next `/` (whitespace included), that `/`,
   * digits and one whitespace character.
   */
  function BugEndWithSubproject(line: string, i: nat): (r: Option<nat>)
    requires i <= |line|
    ensures r.Some? ==> i + 2 <= r.value <= |line| && !IsSpace(line[i])
    ensures r.Some? ==> IsDigit(line[r.value - 2]) && IsSpace(line[r.value - 1])
    ensures r.Some? ==> var s := SubprojectEnd(line, i + BugPrefixLength(line, i));
      BugPrefixLength(line, i) > 0 && s < |line| && NumberEnd(line, s + 1) == r
  {
    var p := BugPrefixLength(line, i);
    if p == 0 then None
    else
      var s := SubprojectEnd(line, i + p);
      if s < |line| then NumberEnd(line, s + 1) else None
  }

  /** The end of the bug reference at `i` taken without a subproject: the prefix, digits and one whitespace character. */
  function BugEndPlain(line: string, i: nat): (r: Option<nat>)
    requires i <= |line|
    ensures r.Some? ==> i + 2 <= r.value <= |line| && !IsSpace(line[i])
    ensures r.Some? ==> IsDigit(line[r.value - 2]) && IsSpace(line[r.value - 1])
    ensures r.Some? ==> BugPrefixLength(line, i) > 0 && NumberEnd(line, i + BugPrefixLength(line, i)) == r
  {
    var p := BugPrefixLength(line, i);
    if p == 0 then None else NumberEnd(line, i + p)
  }

  /** One iteration of the bug group can run from `i` to `e`. */
  predicate IsBugEnd(line: string, i: nat, e: nat)
    requires i <= |line|
  {
    BugEndWithSubproject(line, i) == Some(e) || BugEndPlain(line, i) == Some(e)
  }

  /** The first index at or after `i` whose character is not whitespace. */
  function SpacesEnd(line: string, i: nat): (j: nat)
    requires i <= |line|
    ensures i <= j <= |line| && (j < |line| ==> !IsSpace(line[j]))
    decreases |line| - i
  {
    if i < |line| && IsSpace(line[i]) then SpacesEnd(line, i + 1) else i
  }

  /** What may follow the result block at `p`: nothing, or whitespace, `#` and anything. */
  predicate CommentAt(line: string, p: nat)
    requires p <= |line|
  {
    p == |line| || (IsSpace(line[p]) && SpacesEnd(line, p) < |line| && line[SpacesEnd(line, p)] == '#')
  }

  predicate NoBracketOrDot(s: string) {
    forall i | 0 <= i < |s| :: s[i] != '[' && s[i] != '.'
  }

  /** ` ]` at `k` closes the result block opened at `j`, and a comment may follow it. */
  predicate ClosesResults(line: string, j: nat, k: nat)
    requires j + 2 <= |line|
  {
    j + 3 <= k && k + 2 <= |line| && line[k] == ' ' && line[k + 1] == ']' && NoBracketOrDot(line[j + 2..k])
    && CommentAt(line, k + 2)
  }

  /**
   * The result block at `j` is `[ `, a non-empty run free of `[` and `.`, ` ]`, and a comment:
   * the position of its ` ]`, trying those at or before `k` from the last one down.
   */
  function ResultsEnd(line: string, j: nat, k: nat): (r: Option<nat>)
    requires j + 2 <= |line| && k <= |line|
    ensures r.Some? ==> r.value <= k && ClosesResults(line, j, r.value)
    decreases k
  {
    if k < j + 3 then None
    else if ClosesResults(line, j, k) then Some(k)
    else ResultsEnd(line, j, k - 1)
  }

  /** The end of the test starting at `j`: the next whitespace, which must be a space. */
  function TestEnd(line: string, j: nat): (r: Option<nat>)
    requires j <= |line|
    ensures r.Some? ==> j < r.value < |line| && line[r.value] == ' ' && NoSpace(line[j..r.value])
  {
    var e := j + FirstSpace(line[j..]);
    assert line[j..e] == line[j..][..FirstSpace(line[j..])];
    if e > j && e < |line| && line[e] == ' ' then Some(e) else None
  }

  /**
   * line[j..] is a test ending at `e`, ` [ `, results, ` ]` at `k` and a comment.
   */
  predicate TestAndResults(line: string, j: nat, e: nat, k: nat) {
    j < e && e + 4 <= k && k + 2 <= |line| && NoSpace(line[j..e])
    && line[e] == ' ' && line[e + 1] == '[' && line[e + 2] == ' ' && line[k] == ' ' && line[k + 1] == ']'
    && NoBracketOrDot(line[e + 3..k]) && CommentAt(line, k + 2)
  }

  /**
   * A test, a space and a result block starting at `j`: the end of the test and the position
   * of the ` ]` closing the results.
   */
  function TestSpan(line: string, j: nat): (r: Option<(nat, nat)>)
    requires j <= |line|
    ensures r.Some? ==> TestAndResults(line, j, r.value.0, r.value.1)
  {
    var e := TestEnd(line, j);
    if e.Some? && e.value + 3 <= |line| && line[e.value + 1] == '[' && line[e.value + 2] == ' ' then
      var k := ResultsEnd(line, e.value + 1, |line|);
      if k.Some? then Some((e.value, k.value)) else None
    else None
  }

  /** ` ] ` at `k` closes a tag block, and a test and its results follow. */
  predicate ClosesTags(line: string, k: nat) {
    k + 3 <= |line| && line[k] == ' ' && line[k + 1] == ']' && line[k + 2] == ' ' && TestSpan(line, k + 3).Some?
  }

  /**
   * The tag block at `i` is `[ `, a non-empty run and ` ] ` followed by a test and its results:
   * the position of its ` ] `, trying those at or before `k` from the last one down.
   */
  function TagsEnd(line: string, i: nat, k: nat): (r: Option<nat>)
    requires i + 2 <= |line| && k <= |line|
    ensures r.Some? ==> i + 3 <= r.value <= k && ClosesTags(line, r.value)
    decreases k
  {
    if k < i + 3 then None
    else if ClosesTags(line, k) then Some(k)
    else TagsEnd(line, i, k - 1)
  }

  /** The tag block as it appears on the line. */
  function TagBlock(tags: Option<string>): string {
    if tags.Some? then "[ " + tags.value + " ] " else ""
  }

  /** The line from the tag block on, rebuilt from the fields. */
  function Tail(f: Fields): string {
    TagBlock(f.tags) + f.test + " [ " + f.results + " ]" + f.comment
  }

  /** The character classes of each field. */
  predicate FieldShapes(f: Fields) {
    (f.tags.Some? ==> f.tags.value != [])
    && f.test != [] && NoSpace(f.test)
    && f.results != [] && NoBracketOrDot(f.results)
    && (f.comment == [] || (IsSpace(f.comment[0]) && '#' in f.comment))
  }

  /** The test, results and comment from `j` on, given that they match there. */
  function TestFields(line: string, bugsEnd: nat, lastBug: Option<(nat, nat)>, tags: Option<string>, j: nat, e: nat, k: nat): (r: Fields)
    requires TestAndResults(line, j, e, k)
    requires tags.Some? ==> tags.value != []
    ensures r.bugsEnd == bugsEnd && r.lastBug == lastBug && r.tags == tags && FieldShapes(r)
    ensures line[j..] == r.test + " [ " + r.results + " ]" + r.comment
  {
    CommentShape(line, k + 2);
    SplitAroundResults(line, j, e, k);
    Fields(bugsEnd, lastBug, tags, line[j..e], line[e + 3..k], line[k + 2..])
  }

  lemma SplitAroundResults(line: string, j: nat, e: nat, k: nat)
    requires j < e && e + 4 <= k && k + 2 <= |line|
    requires line[e] == ' ' && line[e + 1] == '[' && line[e + 2] == ' ' && line[k] == ' ' && line[k + 1] == ']'
    ensures line[j..] == line[j..e] + " [ " + line[e + 3..k] + " ]" + line[k + 2..]
  {
    assert line[e..e + 3] == " [ " by { assert line[e..e + 3] == [line[e], line[e + 1], line[e + 2]]; }
    assert line[k..k + 2] == " ]" by { assert line[k..k + 2] == [line[k], line[k + 1]]; }
    assert line[j..] == line[j..e] + line[e..e + 3] + line[e + 3..k] + line[k..k + 2] + line[k + 2..];
  }

  lemma CommentShape(line: string, p: nat)
    requires p <= |line| && CommentAt(line, p)
    ensures line[p..] == [] || (IsSpace(line[p..][0]) && '#' in line[p..])
  {
    if p < |line| {
      var q := SpacesEnd(line, p);
      assert line[p..][q - p] == '#';
    }
  }

  /** Everything after the bug references, when nothing there starts another one. */
  function RestAt(line: string, i: nat, lastBug: Option<(nat, nat)>): (r: Option<Fields>)
    requires i <= |line|
    ensures r.Some? ==> r.value.bugsEnd == i && r.value.lastBug == lastBug
    ensures r.Some? ==> FieldShapes(r.value) && line[i..] == Tail(r.value)
  {
    var tagged := if i + 2 <= |line| && line[i] == '[' && line[i + 1] == ' ' then TagsEnd(line, i, |line|) else None;
    if tagged.Some? then TaggedRest(line, i, lastBug, tagged.value)
    else
      var span := TestSpan(line, i);
      if span.Some? then
        var f := TestFields(line, i, lastBug, None, i, span.value.0, span.value.1);
        TailSplit(f);
        Some(f)
      else None
  }

  /** The fields after a tag block opened at `i` and closed at `k`. */
  function TaggedRest(line: string, i: nat, lastBug: Option<(nat, nat)>, k: nat): (r: Option<Fields>)
    requires i + 2 <= |line| && line[i] == '[' && line[i + 1] == ' ' && i + 3 <= k && ClosesTags(line, k)
    ensures r.Some? && r.value.bugsEnd == i && r.value.lastBug == lastBug
    ensures FieldShapes(r.value) && line[i..] == Tail(r.value)
  {
    var span := TestSpan(line, k + 3).value;
    var f := TestFields(line, i, lastBug, Some(line[i + 2..k]), k + 3, span.0, span.1);
    SplitAroundTags(line, i, k);
    TailSplit(f);
    Some(f)
  }

  /** line[i..j] is a run of bug references, each taken with or without a subproject. */
  predicate BugsBetween(line: string, i: nat, j: nat)
    requires i <= j <= |line|
    decreases j - i
  {
    || i == j
    || (var e := BugEndWithSubproject(line, i); e.Some? && e.value <= j && BugsBetween(line, e.value, j))
    || (var e := BugEndPlain(line, i); e.Some? && e.value <= j && BugsBetween(line, e.value, j))
  }

  /** `lastBug` is a bug reference ending at `i`, or absent. */
  predicate LastBugEndsAt(line: string, lastBug: Option<(nat, nat)>, i: nat) {
    lastBug.Some? ==> lastBug.value.0 < lastBug.value.1 == i <= |line| && IsBugEnd(line, lastBug.value.0, i)
  }

  lemma SplitAroundTags(line: string, i: nat, k: nat)
    requires i + 2 <= k && k + 3 <= |line|
    requires line[i] == '[' && line[i + 1] == ' ' && line[k] == ' ' && line[k + 1] == ']' && line[k + 2] == ' '
    ensures line[i..] == "[ " + line[i + 2..k] + " ] " + line[k + 3..]
  {
    assert line[i..i + 2] == "[ " by { assert line[i..i + 2] == [line[i], line[i + 1]]; }
    assert line[k..k + 3] == " ] " by { assert line[k..k + 3] == [line[k], line[k + 1], line[k + 2]]; }
    assert line[i..] == line[i..i + 2] + line[i + 2..k] + line[k..k + 3] + line[k + 3..];
  }

  lemma TailSplit(f: Fields)
    ensures Tail(f) == TagBlock(f.tags) + (f.test + " [ " + f.results + " ]" + f.comment)
  {
  }

  /**
   * Bug references from `i` on, searched as the pattern's greedy repetition backtracks: another
   * reference with a subproject, then another one without, and only when neither lets the rest
   * of the line match, the fields after the references so far.
   */
  function MatchFrom(line: string, i: nat, lastBug: Option<(nat, nat)>): (r: Option<Fields>)
    requires i <= |line| && LastBugEndsAt(line, lastBug, i)
    ensures r.Some? ==> i <= r.value.bugsEnd <= |line| && FieldShapes(r.value) && line[r.value.bugsEnd..] == Tail(r.value)
    ensures r.Some? ==> BugsBetween(line, i, r.value.bugsEnd)
    ensures r.Some? ==> LastBugEndsAt(line, r.value.lastBug, r.value.bugsEnd)
    ensures r.Some? && r.value.bugsEnd == i ==> r.value.lastBug == lastBug
    ensures r.Some? && r.value.bugsEnd > i ==> r.value.lastBug.Some?
    ensures RestAt(line, i, lastBug).Some? ==> r.Some?
    decreases |line| - i
  {
    var sub := BugEndWithSubproject(line, i);
    var viaSub := if sub.Some? then MatchFrom(line, sub.value, Some((i, sub.value))) else None;
    if viaSub.Some? then viaSub
    else
      var plain := BugEndPlain(line, i);
      var viaPlain := if plain.Some? then MatchFrom(line, plain.value, Some((i, plain.value))) else None;
      if viaPlain.Some? then viaPlain else RestAt(line, i, lastBug)
  }

  lemma SplitAt(line: string, k: nat)
    requires k <= |line|
    ensures line == line[..k] + line[k..]
  {
  }

  /** `MATCHER.match(line)`: the fields of a data line, or `None` for a syntax error. */
  function Match(line: string): (r: Option<Fields>)
    ensures r.Some? ==> r.value.bugsEnd <= |line| && FieldShapes(r.value)
    ensures r.Some? ==> line == line[..r.value.bugsEnd] + Tail(r.value)
    ensures r.Some? ==> BugsBetween(line, 0, r.value.bugsEnd)
    ensures r.Some? ==> LastBugEndsAt(line, r.value.lastBug, r.value.bugsEnd)
    ensures r.Some? ==> (r.value.lastBug.None? <==> r.value.bugsEnd == 0)
    ensures r.Some? && r.value.bugsEnd > 0 ==> BugShaped(line, 0, r.value.bugsEnd)
    ensures r.Some? && r.value.lastBug.Some? ==> BugShaped(line, r.value.lastBug.value.0, r.value.bugsEnd)
  {
    var r := MatchFrom(line, 0, None);
    if r.Some? && r.value.lastBug.Some? then
      SplitAt(line, r.value.bugsEnd);
      BugRunShape(line, r.value);
      BugReferenceShape(line, r.value.lastBug.value.0, r.value.bugsEnd);
      r
    else if r.Some? then
      SplitAt(line, r.value.bugsEnd);
      r
    else r
  }

  /** `TagsEnd` finds the last ` ] ` at or before `k` that closes the tag block: none is missed. */
  lemma TagsEndLast(line: string, i: nat, k: nat, m: nat)
    requires i + 2 <= |line| && k <= |line|
    requires i + 3 <= m <= k && ClosesTags(line, m)
    ensures TagsEnd(line, i, k).Some? && m <= TagsEnd(line, i, k).value
  {
    TagsEndStep(line, i, m);
    TagsEndSteps(line, i, m, k);
    SearchGrows((x: nat) => if x <= |line| then TagsEnd(line, i, x) else None, m, k);
  }

  /** Each step of the search keeps an end once found, or moves it right. */
  lemma TagsEndSteps(line: string, i: nat, m: nat, k: nat)
    requires i + 2 <= |line| && i + 3 <= m <= k <= |line|
    ensures forall x | m <= x < k :: TagsEnd(line, i, x).Some? ==>
      TagsEnd(line, i, x + 1).Some? && TagsEnd(line, i, x).value <= TagsEnd(line, i, x + 1).value
  {
    forall x | m <= x < k
      ensures TagsEnd(line, i, x).Some? ==>
        TagsEnd(line, i, x + 1).Some? && TagsEnd(line, i, x).value <= TagsEnd(line, i, x + 1).value
    {
      TagsEndStep(line, i, x + 1);
    }
  }

  /**
   * A search whose answer only moves right as its bound grows, and never disappears: an answer
   * found with bound `m` stays at or before the one found with bound `k`.
   */
  lemma {:induction false} SearchGrows(f: nat -> Option<nat>, m: nat, k: nat)
    requires m <= k && f(m).Some?
    requires forall x | m <= x < k :: f(x).Some? ==> f(x + 1).Some? && f(x).value <= f(x + 1).value
    ensures f(k).Some? && f(m).value <= f(k).value
    decreases k
  {
    if k > m {
      SearchGrows(f, m, k - 1);
    }
  }

  /** One step of the search for the tag block's end. */
  lemma TagsEndStep(line: string, i: nat, k: nat)
    requires i + 2 <= |line| && i + 3 <= k <= |line|
    ensures ClosesTags(line, k) ==> TagsEnd(line, i, k) == Some(k)
    ensures !ClosesTags(line, k) ==> TagsEnd(line, i, k) == TagsEnd(line, i, k - 1)
  {
  }

  /** `ResultsEnd` finds the last ` ]` at or before `k` that closes the result block: none is missed. */
  lemma {:induction false} ResultsEndLast(line: string, j: nat, k: nat, m: nat)
    requires j + 2 <= |line| && k <= |line|
    requires m <= k && ClosesResults(line, j, m)
    ensures ResultsEnd(line, j, k).Some? && m <= ResultsEnd(line, j, k).value
    decreases k
  {
    if k > m && !ClosesResults(line, j, k) {
      ResultsEndLast(line, j, k - 1, m);
    }
  }

  /** The test ends at the first whitespace, so a test followed by a space ends there. */
  lemma TestEndAt(line: string, j: nat, e: nat)
    requires j < e < |line| && NoSpace(line[j..e]) && line[e] == ' '
    ensures TestEnd(line, j) == Some(e)
  {
  }

  /** Whenever a test and a result block can follow `j`, `TestSpan` finds them. */
  lemma TestSpanComplete(line: string, j: nat, e: nat, k: nat)
    requires TestAndResults(line, j, e, k)
    ensures TestSpan(line, j).Some? && TestSpan(line, j).value.0 == e
  {
    TestEndAt(line, j, e);
    assert ClosesResults(line, e + 1, k);
    ResultsEndLast(line, e + 1, |line|, k);
  }

  /** Whenever some ` ] ` closes the tag block at `i`, the rest of the line matches there. */
  lemma TaggedRestComplete(line: string, i: nat, lastBug: Option<(nat, nat)>, k: nat)
    requires i + 2 <= |line| && line[i] == '[' && line[i + 1] == ' ' && i + 3 <= k && ClosesTags(line, k)
    ensures RestAt(line, i, lastBug).Some?
  {
    TagsEndLast(line, i, |line|, k);
  }

  /** Whenever a test and a result block can follow `i`, the rest of the line matches there. */
  lemma UntaggedRestComplete(line: string, i: nat, lastBug: Option<(nat, nat)>, e: nat, k: nat)
    requires TestAndResults(line, i, e, k)
    ensures RestAt(line, i, lastBug).Some?
  {
    TestSpanComplete(line, i, e, k);
  }

  /** Whether the rest of the line matches at `i` does not depend on the bug references before it. */
  lemma RestAtAnyLastBug(line: string, i: nat, lastBug: Option<(nat, nat)>, other: Option<(nat, nat)>)
    requires i <= |line|
    ensures RestAt(line, i, lastBug).Some? == RestAt(line, i, other).Some?
  {
  }

  /**
   * The search misses no split: when bug references run from `i` to `j` and the rest of the
   * line matches at `j`, `MatchFrom` finds a match.
   */
  lemma {:induction false} MatchFromComplete(line: string, i: nat, j: nat, lastBug: Option<(nat, nat)>, other: Option<(nat, nat)>)
    requires i <= j <= |line| && LastBugEndsAt(line, lastBug, i)
    requires BugsBetween(line, i, j) && RestAt(line, j, other).Some?
    ensures MatchFrom(line, i, lastBug).Some?
    decreases j - i
  {
    if i == j {
      RestAtAnyLastBug(line, i, lastBug, other);
    } else {
      var sub := BugEndWithSubproject(line, i);
      var plain := BugEndPlain(line, i);
      if sub.Some? && sub.value <= j && BugsBetween(line, sub.value, j) {
        MatchFromComplete(line, sub.value, j, Some((i, sub.value)), other);
        MatchFromStep(line, i, lastBug, sub.value);
      } else {
        assert plain.Some? && plain.value <= j && BugsBetween(line, plain.value, j);
        MatchFromComplete(line, plain.value, j, Some((i, plain.value)), other);
        MatchFromStep(line, i, lastBug, plain.value);
      }
    }
  }

  /** When the search succeeds after one more bug reference, it succeeds. */
  lemma MatchFromStep(line: string, i: nat, lastBug: Option<(nat, nat)>, e: nat)
    requires i <= |line| && LastBugEndsAt(line, lastBug, i) && i < e <= |line| && IsBugEnd(line, i, e)
    requires MatchFrom(line, e, Some((i, e))).Some?
    ensures MatchFrom(line, i, lastBug).Some?
  {
  }

  /** A line that is a run of bug references followed by a matching rest is matched. */
  lemma MatchComplete(line: string, j: nat, other: Option<(nat, nat)>)
    requires j <= |line| && BugsBetween(line, 0, j) && RestAt(line, j, other).Some?
    ensures Match(line).Some?
  {
    MatchFromComplete(line, 0, j, None, other);
  }

  /**
   * A bug reference, or a run of them, from `s` to `e`: it starts with a prefix letter and ends
   * with a digit and one whitespace character.
   */
  predicate BugShaped(line: string, s: nat, e: nat) {
    s + 2 <= e <= |line| && !IsSpace(line[s]) && !IsSpace(line[e - 2]) && IsSpace(line[e - 1])
  }

  /** The bug references of a line: `Strip(line[..f.bugsEnd])`, the whole run ending at the last one. */
  function Reason(line: string, f: Fields): (r: string)
    requires f.bugsEnd <= |line| && (f.bugsEnd > 0 ==> BugShaped(line, 0, f.bugsEnd))
    ensures f.bugsEnd == 0 ==> r == []
    ensures f.bugsEnd > 0 ==> r == line[..f.bugsEnd - 1]
  {
    if f.bugsEnd > 0 then
      StripDropsFinalSpace(line[..f.bugsEnd]);
      Strip(line[..f.bugsEnd])
    else Strip(line[..0])
  }

  /** A run of bug references starts with a prefix letter and ends with a digit and one space. */
  lemma BugRunShape(line: string, f: Fields)
    requires f.bugsEnd <= |line| && LastBugEndsAt(line, f.lastBug, f.bugsEnd)
    requires f.lastBug.None? <==> f.bugsEnd == 0
    requires BugsBetween(line, 0, f.bugsEnd) && f.bugsEnd > 0
    ensures BugShaped(line, 0, f.bugsEnd)
  {
    var (s, e) := f.lastBug.value;
    BugReferenceShape(line, s, e);
    BugRunStart(line, f.bugsEnd);
  }

  lemma BugRunStart(line: string, j: nat)
    requires 0 < j <= |line| && BugsBetween(line, 0, j)
    ensures 2 <= j && !IsSpace(line[0])
  {
    assert BugEndWithSubproject(line, 0).Some? || BugEndPlain(line, 0).Some?;
  }

  lemma StripDropsFinalSpace(x: string)
    requires BugShaped(x, 0, |x|)
    ensures Strip(x) == x[..|x| - 1]
  {
    assert LStrip(x) == x;
    var r := RStrip(x);
    assert |r| == |x| - 1;
  }

  /**
   * The reason as `_parse_expectation_line` rebuilds it: the last bug reference stripped, preceded
   * by everything before the FIRST place that text occurs on the line.
   */
  function ReasonAsWritten(line: string, f: Fields): (r: string)
    requires f.bugsEnd <= |line|
    requires f.lastBug.Some? ==> f.lastBug.value.1 == f.bugsEnd && BugShaped(line, f.lastBug.value.0, f.bugsEnd)
    ensures f.lastBug.None? ==> r == []
  {
    if f.lastBug.None? then []
    else
      var (s, e) := f.lastBug.value;
      var last := Strip(line[s..e]);
      StrippedBug(line, s, e);
      var idx := Find(line, last);
      line[..idx] + last
  }

  /** The rebuilt reason is a proper prefix of the bug references that ends with the last one. */
  lemma ReasonAsWrittenIsPrefix(line: string, f: Fields)
    requires f.bugsEnd <= |line| && f.lastBug.Some? && f.lastBug.value.1 == f.bugsEnd
    requires BugShaped(line, f.lastBug.value.0, f.bugsEnd)
    ensures var r := ReasonAsWritten(line, f);
      |r| < f.bugsEnd && r == line[..|r|] && EndsWith(r, line[f.lastBug.value.0..f.bugsEnd - 1])
  {
    var (s, e) := f.lastBug.value;
    StrippedBug(line, s, e);
  }

  lemma BugReferenceShape(line: string, s: nat, e: nat)
    requires s <= |line| && IsBugEnd(line, s, e)
    ensures BugShaped(line, s, e)
  {
  }

  /** A bug reference stripped is itself without its final whitespace character. */
  lemma StrippedBug(line: string, s: nat, e: nat)
    requires BugShaped(line, s, e)
    ensures Strip(line[s..e]) == line[s..e - 1]
    ensures 0 <= Find(line, line[s..e - 1]) <= s
    ensures line[..Find(line, line[s..e - 1])] + line[s..e - 1] == line[..Find(line, line[s..e - 1]) + e - 1 - s]
  {
    StripDropsFinalSpace(line[s..e]);
    assert line[s..e][..e - s - 1] == line[s..e - 1];
    assert OccursAt(line, line[s..e - 1], s);
    FindAtMost(line, line[s..e - 1], s);
    var idx := Find(line, line[s..e - 1]);
    assert line[idx..idx + e - 1 - s] == line[s..e - 1];
  }

  /** When the last reference also starts the line, the rebuilt reason is that reference alone. */
  lemma ReasonAsWrittenAtStart(line: string, f: Fields)
    requires f.bugsEnd <= |line| && f.lastBug.Some? && f.lastBug.value.1 == f.bugsEnd
    requires BugShaped(line, f.lastBug.value.0, f.bugsEnd)
    requires OccursAt(line, line[f.lastBug.value.0..f.bugsEnd - 1], 0)
    ensures ReasonAsWritten(line, f) == line[f.lastBug.value.0..f.bugsEnd - 1]
  {
    var (s, e) := f.lastBug.value;
    StrippedBug(line, s, e);
    FindAtStart(line, line[s..e - 1]);
    assert line[..0] + line[s..e - 1] == line[s..e - 1];
  }

  /** The line ends with `t [ Pass ]` from `j`, character by character. */
  predicate TestPassAt(line: string, j: nat) {
    && |line| == j + 10 && line[j] == 't' && line[j + 1] == ' ' && line[j + 2] == '[' && line[j + 3] == ' '
    && line[j + 4] == 'P' && line[j + 5] == 'a' && line[j + 6] == 's' && line[j + 7] == 's'
    && line[j + 8] == ' ' && line[j + 9] == ']'
  }

  /** The fields after the bug references when the line goes on `t [ Pass ]` from `j`. */
  lemma TestPassRest(line: string, j: nat, lastBug: Option<(nat, nat)>)
    requires j <= |line| && line[j..] == "t [ Pass ]"
    ensures RestAt(line, j, lastBug) == Some(Fields(j, lastBug, None, "t", "Pass", ""))
  {
    assert TestPassAt(line, j) by {
      assert |line| == j + 10;
      assert forall d | 0 <= d < 10 :: line[j + d] == line[j..][d];
    }
    TestPassSpan(line, j);
    TestPassWords(line, j);
  }

  /** The test, results and comment of `t [ Pass ]` from `j`. */
  lemma TestPassWords(line: string, j: nat)
    requires TestPassAt(line, j)
    ensures line[j..j + 1] == "t" && line[j + 4..j + 8] == "Pass" && line[j + 10..] == ""
  {
    assert line[j..j + 1] == [line[j]];
    assert line[j + 4..j + 8] == [line[j + 4], line[j + 5], line[j + 6], line[j + 7]];
  }

  /** `t [ Pass ]` from `j` is the test `t` and a result block closed at `j + 8`. */
  lemma TestPassSpan(line: string, j: nat)
    requires TestPassAt(line, j)
    ensures TestSpan(line, j) == Some((j + 1, j + 8))
  {
    assert FirstSpace(line[j..]) == 1 by {
      assert line[j..][0] == 't' && line[j..][1] == ' ';
    }
    assert TestEnd(line, j) == Some(j + 1);
    assert NoBracketOrDot(line[j + 4..j + 8]) by {
      assert line[j + 4..j + 8] == [line[j + 4], line[j + 5], line[j + 6], line[j + 7]];
    }
    assert ClosesResults(line, j + 2, j + 8);
    assert ResultsEnd(line, j + 2, j + 10) == Some(j + 8) by {
      assert !ClosesResults(line, j + 2, j + 10) && !ClosesResults(line, j + 2, j + 9);
      assert ResultsEnd(line, j + 2, j + 9) == Some(j + 8);
    }
  }

  /** A reference whose subproject runs over a space and holds another tracker name. */
  const SpacedSubprojectLine := "b/1 x/2 t [ Pass ]"

  /** The characters of `SpacedSubprojectLine` the match depends on. */
  predicate SpacedSubprojectShape(line: string) {
    && |line| == 18 && line[8..] == "t [ Pass ]"
    && line[0] == 'b' && line[1] == '/' && line[2] == '1' && line[3] == ' '
    && line[4] == 'x' && line[5] == '/' && line[6] == '2' && line[7] == ' '
  }

  lemma SpacedSubprojectCharacters(line: string)
    requires line == SpacedSubprojectLine
    ensures SpacedSubprojectShape(line) && line[..7] == "b/1 x/2"
  {
  }

  /** A line shaped like `SpacedSubprojectLine` is one bug reference, with the subproject `1 x`, then the test `t`. */
  lemma SpacedSubprojectFields(line: string)
    requires SpacedSubprojectShape(line)
    ensures Match(line) == Some(Fields(8, Some((0, 8)), None, "t", "Pass", ""))
  {
    var f := Fields(8, Some((0, 8)), None, "t", "Pass", "");
    BugPrefixAtB(line, 0);
    assert SubprojectEnd(line, 2) == 5 by {
      assert SubprojectEnd(line, 5) == 5;
      assert SubprojectEnd(line, 4) == 5;
      assert SubprojectEnd(line, 3) == 5;
    }
    assert DigitsEnd(line, 6) == 7 by { assert DigitsEnd(line, 7) == 7; }
    assert BugEndWithSubproject(line, 0) == Some(8);
    assert line[8] == 't';
    NoBugPrefix(line, 8);
    TestPassRest(line, 8, Some((0, 8)));
    assert MatchFrom(line, 8, Some((0, 8))) == Some(f);
    assert MatchFrom(line, 0, None) == Some(f);
    SplitAt(line, 8);
  }

  /**
   * `b/1 x/2 t [ Pass ]` is one bug reference whose subproject `1 x` runs over a space, so
   * both the rebuilt and the corrected reason are `b/1 x/2`, and the test is `t`.
   */
  lemma SpacedSubprojectMatch(line: string)
    requires line == SpacedSubprojectLine
    ensures Match(line) == Some(Fields(8, Some((0, 8)), None, "t", "Pass", ""))
    ensures Reason(line, Match(line).value) == "b/1 x/2"
    ensures ReasonAsWritten(line, Match(line).value) == "b/1 x/2"
  {
    var f := Fields(8, Some((0, 8)), None, "t", "Pass", "");
    SpacedSubprojectCharacters(line);
    SpacedSubprojectFields(line);
    assert OccursAt(line, line[0..7], 0);
    ReasonAsWrittenAtStart(line, f);
    assert line[0..7] == line[..7];
  }

  /** Three bug references: the pattern takes `b/12 b/3 ` as one, with the subproject `12 b`, then `b/1 `. */
  const RepeatedBugLine := "b/12 b/3 b/1 t [ Pass ]"

  /** The characters of `RepeatedBugLine` the match depends on. */
  predicate RepeatedBugShape(line: string) {
    && |line| == 23 && line[13..] == "t [ Pass ]"
    && line[0] == 'b' && line[1] == '/' && line[2] == '1' && line[3] == '2' && line[4] == ' '
    && line[5] == 'b' && line[6] == '/' && line[7] == '3' && line[8] == ' '
    && line[9] == 'b' && line[10] == '/' && line[11] == '1' && line[12] == ' '
    && forall k | 11 <= k < |line| :: line[k] != '/'
  }

  lemma RepeatedBugCharacters(line: string)
    requires line == RepeatedBugLine
    ensures RepeatedBugShape(line) && line[..12] == "b/12 b/3 b/1" && line[9..12] == "b/1"
  {
  }

  /** The bug references of a line shaped like `RepeatedBugLine`: the first iteration ends at 9, the second, without a subproject, at 13. */
  lemma RepeatedBugIterations(line: string)
    requires RepeatedBugShape(line)
    ensures BugEndWithSubproject(line, 0) == Some(9)
    ensures BugEndWithSubproject(line, 9).None? && BugEndPlain(line, 9) == Some(13)
    ensures BugPrefixLength(line, 13) == 0
  {
    BugPrefixAtB(line, 0);
    BugPrefixAtB(line, 9);
    assert SubprojectEnd(line, 2) == 6 by {
      assert SubprojectEnd(line, 6) == 6;
      assert SubprojectEnd(line, 5) == 6;
      assert SubprojectEnd(line, 4) == 6;
      assert SubprojectEnd(line, 3) == 6;
    }
    assert DigitsEnd(line, 7) == 8 by { assert DigitsEnd(line, 8) == 8; }
    assert SubprojectEnd(line, 11) == |line|;
    assert DigitsEnd(line, 11) == 12 by { assert DigitsEnd(line, 12) == 12; }
    assert line[13] == 't';
    NoBugPrefix(line, 13);
  }

  /** A line shaped like `RepeatedBugLine` splits into the iterations `b/12 b/3 ` and `b/1 `, the test `t` and `Pass`. */
  lemma RepeatedBugLineMatch(line: string)
    requires RepeatedBugShape(line)
    ensures Match(line) == Some(Fields(13, Some((9, 13)), None, "t", "Pass", ""))
  {
    var f := Fields(13, Some((9, 13)), None, "t", "Pass", "");
    RepeatedBugIterations(line);
    TestPassRest(line, 13, Some((9, 13)));
    assert MatchFrom(line, 13, Some((9, 13))) == Some(f);
    assert MatchFrom(line, 9, Some((0, 9))) == Some(f);
    assert MatchFrom(line, 0, None) == Some(f);
    SplitAt(line, 13);
  }

  /**
   * Finding: the last iteration of the bug group is `b/1 `, whose text first occurs inside
   * `b/12`, so the rebuilt reason is `b/1` and loses `b/12 b/3`; the whole run is `b/12 b/3 b/1`.
   */
  lemma ReasonAsWrittenLosesBug(line: string)
    requires line == RepeatedBugLine
    ensures Match(line).Some?
    ensures ReasonAsWritten(line, Match(line).value) == "b/1"
    ensures Reason(line, Match(line).value) == "b/12 b/3 b/1"
  {
    var f := Fields(13, Some((9, 13)), None, "t", "Pass", "");
    RepeatedBugCharacters(line);
    RepeatedBugLineMatch(line);
    assert OccursAt(line, line[9..12], 0) by { assert line[0..3] == [line[0], line[1], line[2]]; }
    ReasonAsWrittenAtStart(line, f);
  }
}

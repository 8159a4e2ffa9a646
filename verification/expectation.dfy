/**
 * One rule of an expectations file (`Expectation` in typ/expectations_parser.py): the result
 * spellings, the rule itself, its equality, its rendering as a line, and the two ways it changes.
 */
module Expectations {
  import opened Wrappers
  import opened Text
  import opened Wildcards

  /** The outcomes a rule can expect (`ResultType` of typ/json_results.py). */
  datatype ResultType = Pass | Failure | Crash | Timeout | Skip

  /** `RESULT_TAGS`: how each outcome is spelled in a file. */
  function ResultTag(t: ResultType): string {
    match t
    case Failure => "Failure"
    case Crash => "Crash"
    case Timeout => "Timeout"
    case Pass => "Pass"
    case Skip => "Skip"
  }

  /** `_EXPECTATION_MAP`: the outcome a spelling names, if it names one. */
  function ExpectationMap(s: string): (r: Option<ResultType>)
    ensures r.Some? ==> ResultTag(r.value) == s
    ensures r.None? ==> forall t :: ResultTag(t) != s
  {
    if s == "Crash" then Some(Crash)
    else if s == "Failure" then Some(Failure)
    else if s == "Pass" then Some(Pass)
    else if s == "Timeout" then Some(Timeout)
    else if s == "Skip" then Some(Skip)
    else
      ResultTagSpellings();
      None
  }

  lemma ResultTagSpellings()
    ensures forall t :: ResultTag(t) in {"Crash", "Failure", "Pass", "Timeout", "Skip"}
  {
    forall t ensures ResultTag(t) in {"Crash", "Failure", "Pass", "Timeout", "Skip"} {
      if t.Pass? {} else if t.Failure? {} else if t.Crash? {} else if t.Timeout? {} else {}
    }
  }

  /** The spelling of an outcome reads back as that outcome. */
  lemma ResultTagRoundTrip(t: ResultType)
    ensures ExpectationMap(ResultTag(t)) == Some(t)
  {
  }

  const SlowTag := "Slow"
  const RetryOnFailureTag := "RetryOnFailure"

  /** `VALID_RESULT_TAGS`: the outcome spellings plus the two flags. */
  const ValidResultTags: set<string> :=
    {"Crash", "Failure", "Pass", "Timeout", "Skip", SlowTag, RetryOnFailureTag}

  /** `ConflictResolutionTypes`: how a rule combines with rules that matched before it. */
  datatype ConflictResolution = Union | Override

  /** `_group_to_string`: joins with ", " and turns the last ", " into " and ". */
  function GroupToString(group: seq<string>): string {
    var msg := Join(group, ", ");
    var k := RFind(msg, ", ");
    if k != -1 then msg[..k] + " and " + msg[k + 2..] else msg
  }

  lemma {:induction false} JoinSnoc(xs: seq<string>, y: string, sep: string)
    requires xs != []
    ensures Join(xs + [y], sep) == Join(xs, sep) + sep + y
    decreases |xs|
  {
    if |xs| == 1 {
      assert (xs + [y])[1..] == [y];
    } else {
      assert (xs + [y])[1..] == xs[1..] + [y];
      JoinSnoc(xs[1..], y, sep);
    }
  }

  lemma NoSeparatorIn(w: string)
    requires NoSpace(w)
    ensures RFind(w, ", ") == -1
  {
    forall j ensures !OccursAt(w, ", ", j) {
      if 0 <= j && j + 2 <= |w| { assert w[j..j + 2][1] == w[j + 1]; }
    }
  }

  lemma NoSeparatorAfter(f: string, last: string)
    requires NoSpace(last)
    ensures forall j | j > |f| :: !OccursAt(f + ", " + last, ", ", j)
  {
    var msg := f + ", " + last;
    forall j | j > |f| ensures !OccursAt(msg, ", ", j) {
      if j + 2 <= |msg| {
        var c := msg[j + 1];
        assert c == last[j - 1 - |f|];
        assert c != ' ' by { assert !IsSpace(last[j - 1 - |f|]); }
        assert msg[j..j + 2][1] == c;
        assert ", "[1] == ' ';
      }
    }
  }

  /** A lone word without whitespace is printed as it is. */
  lemma GroupToStringSingle(group: seq<string>)
    requires |group| <= 1 && forall i | 0 <= i < |group| :: NoSpace(group[i])
    ensures GroupToString(group) == Join(group, ", ")
  {
    if |group| == 1 {
      NoSeparatorIn(group[0]);
    } else {
      NoSeparatorIn("");
    }
  }

  /**
   * For words without whitespace (tag and result names), a group of two or more reads as
   * English: all but the last separated by ", " and the last joined by " and ".
   */
  lemma GroupToStringEnglish(group: seq<string>)
    requires |group| >= 2 && forall i | 0 <= i < |group| :: NoSpace(group[i])
    ensures GroupToString(group) == Join(group[..|group| - 1], ", ") + " and " + group[|group| - 1]
  {
    var n := |group|;
    var front := group[..n - 1];
    var last := group[n - 1];
    assert group == front + [last];
    JoinSnoc(front, last, ", ");
    var f := Join(front, ", ");
    var msg := f + ", " + last;
    assert Join(group, ", ") == msg;
    assert OccursAt(msg, ", ", |f|) by { assert msg[|f|..|f| + 2] == ", "; }
    NoSeparatorAfter(f, last);
    var k := RFind(msg, ", ");
    assert k == |f|;
    assert msg[k + 2..] == last;
    assert msg[..k] == f;
  }

  /**
   * One rule. `rawTags` and `rawResults` are the tokens as written in the file; an empty
   * sequence stands for "not recorded", in which case they are derived from `tags` and `results`.
   * The callback `encode_func` is the identity here.
   */
  datatype Expectation = Expectation(
    reason: string,
    test: string,
    tags: set<string>,
    results: set<ResultType>,
    lineno: int,
    shouldRetryOnFailure: bool,
    isSlowTest: bool,
    conflictResolution: ConflictResolution,
    rawTags: seq<string>,
    rawResults: seq<string>,
    isGlob: bool,
    fullWildcardSupport: bool,
    trailingComments: string,
    isDefaultPass: bool)

  /**
   * `Expectation.__init__`: missing reason, tags and comment are empty; missing results mean
   * `{Pass}` and mark the rule as a default pass.
   */
  function NewExpectation(reason: string, test: string, tags: seq<string>, results: set<ResultType>,
                          lineno: int, retryOnFailure: bool, isSlowTest: bool,
                          conflictResolution: ConflictResolution, rawTags: seq<string>,
                          rawResults: seq<string>, isGlob: bool, fullWildcardSupport: bool,
                          trailingComments: string): (e: Expectation)
    ensures e.results != {}
    ensures e.isDefaultPass <==> results == {}
    ensures results != {} ==> e.results == results
    ensures e.isDefaultPass ==> e.results == {Pass}
    ensures forall t :: t in e.tags <==> t in tags
  {
    Expectation(reason, test, set t | t in tags, if results == {} then {Pass} else results,
                lineno, retryOnFailure, isSlowTest, conflictResolution, rawTags, rawResults,
                isGlob, fullWildcardSupport, trailingComments, results == {})
  }

  /** `Expectation(test=test)`: the rule a test gets when nothing else applies. */
  function DefaultExpectation(test: string): (e: Expectation)
    ensures e.test == test && e.results == {Pass} && e.isDefaultPass
    ensures !e.shouldRetryOnFailure && !e.isSlowTest && e.tags == {} && e.reason == []
  {
    NewExpectation("", test, [], {}, 0, false, false, Union, [], [], false, false, "")
  }

  /**
   * `Expectation.__eq__`: compares reason, test, flags, tags, results, line number and comment;
   * glob mode, conflict resolution, raw tokens and the default-pass mark are not compared.
   */
  predicate Equal(a: Expectation, b: Expectation) {
    a.reason == b.reason && a.test == b.test
    && a.shouldRetryOnFailure == b.shouldRetryOnFailure && a.isSlowTest == b.isSlowTest
    && a.tags == b.tags && a.results == b.results && a.lineno == b.lineno
    && a.trailingComments == b.trailingComments
  }

  /** Glob mode has no effect on equality, and equality is an equivalence. */
  lemma EqualIgnoresGlobMode(e: Expectation, isGlob: bool, fullWildcardSupport: bool)
    ensures Equal(e, e.(isGlob := isGlob, fullWildcardSupport := fullWildcardSupport))
    ensures forall a, b :: Equal(a, b) ==> Equal(b, a)
    ensures forall a, b, c :: Equal(a, b) && Equal(b, c) ==> Equal(a, c)
  {
  }

  // ---- Rendering a rule as a line ----

  /** The exceptions `to_string` can raise. */
  datatype RenderError =
    | GlobWithoutTrailingAsterisk  // the AssertionError of a limited glob
    | EmptyTag                     // the IndexError of capitalising an empty tag

  /** `t[0].upper() + t[1:].lower()`. */
  function Capitalize(t: string): string
    requires t != []
  {
    [UpperChar(t[0])] + Lower(t[1..])
  }

  /** The `raw_tags` property, sorted as `to_string` prints it. */
  function PrintedTags(e: Expectation): (r: Result<seq<string>, RenderError>)
    ensures r.Err? <==> e.rawTags == [] && [] in e.tags
    ensures r.Ok? && e.rawTags != [] ==> multiset(r.value) == multiset(e.rawTags)
    ensures r.Ok? && e.rawTags == [] ==>
      forall s :: s in r.value <==> exists t | t in e.tags :: t != [] && s == Capitalize(t)
  {
    if e.rawTags != [] then Ok(Sort(e.rawTags))
    else if [] in e.tags then Err(EmptyTag)
    else Ok(SortedSet(set t | t in e.tags && t != [] :: Capitalize(t)))
  }

  /** The printed tags are sorted, and each appears once when they are rebuilt from the tags. */
  lemma PrintedTagsSorted(e: Expectation)
    requires PrintedTags(e).Ok?
    ensures Sorted(PrintedTags(e).value)
    ensures e.rawTags == [] ==> StrictlySorted(PrintedTags(e).value)
  {
    if e.rawTags != [] {
      SortIsSorted(e.rawTags);
    } else {
      SortedSetIsStrictlySorted(set t | t in e.tags && t != [] :: Capitalize(t));
    }
  }

  /** The spellings a set of outcomes and the two flags stand for. */
  function Spellings(results: set<ResultType>, isSlowTest: bool, shouldRetryOnFailure: bool): set<string> {
    (set t | t in results :: ResultTag(t))
    + (if isSlowTest then {SlowTag} else {})
    + (if shouldRetryOnFailure then {RetryOnFailureTag} else {})
  }

  /** The spellings a rule's results and flags stand for. */
  function ResultSpellings(e: Expectation): set<string> {
    Spellings(e.results, e.isSlowTest, e.shouldRetryOnFailure)
  }

  /** The `raw_results` property, sorted as `to_string` prints it. */
  function PrintedResults(e: Expectation): (r: seq<string>)
    ensures e.rawResults != [] ==> multiset(r) == multiset(e.rawResults)
    ensures e.rawResults != [] ==> forall s :: s in r <==> s in e.rawResults
    ensures e.rawResults == [] ==> forall s :: s in r <==> s in ResultSpellings(e)
  {
    if e.rawResults != [] then Sort(e.rawResults) else SortedSet(ResultSpellings(e))
  }

  /** The printed results are sorted. */
  lemma PrintedResultsSorted(e: Expectation)
    ensures Sorted(PrintedResults(e))
  {
    if e.rawResults != [] {
      SortIsSorted(e.rawResults);
    } else {
      SortedSetIsStrictlySorted(ResultSpellings(e));
    }
  }

  /**
   * `to_string`: `<reason> [ <tags> ] <test> [ <results> ]<comment>`, the reason and the tag
   * block only when present, the test re-escaped for its glob mode.
   */
  function ToString(e: Expectation): (r: Result<string, RenderError>)
    ensures r == Err(GlobWithoutTrailingAsterisk) <==>
      e.isGlob && !e.fullWildcardSupport && !EndsWith(e.test, "*")
    ensures r == Err(EmptyTag) <==>
      !(e.isGlob && !e.fullWildcardSupport && !EndsWith(e.test, "*")) && e.rawTags == [] && [] in e.tags
    ensures r.Ok? ==>
      && PrintedTags(e).Ok? && PrintedTest(e.test, e.isGlob, e.fullWildcardSupport).Some?
      && r.value == Line(e.reason, PrintedTags(e).value,
                         PrintedTest(e.test, e.isGlob, e.fullWildcardSupport).value,
                         PrintedResults(e), e.trailingComments)
  {
    var printed := PrintedTest(e.test, e.isGlob, e.fullWildcardSupport);
    if printed.None? then Err(GlobWithoutTrailingAsterisk)
    else
      var tags := PrintedTags(e);
      if tags.Err? then Err(tags.error)
      else Ok(Line(e.reason, tags.value, printed.value, PrintedResults(e), e.trailingComments))
  }

  /** The line `to_string` assembles from its parts. */
  function Line(reason: string, tags: seq<string>, test: string, results: seq<string>,
                comment: string): string
  {
    (if reason != [] then reason + " " else "")
    + (if tags != [] then "[ " + Join(tags, " ") + " ] " else "")
    + test + " " + "[ " + Join(results, " ") + " ]"
    + comment
  }

  // ---- Changing a rule ----

  /** `' '.join(sorted(set(a.split() + b.split())))`. */
  function MergeReasons(a: string, b: string): (r: string) {
    Join(SortedSet(set w | w in Split(a) + Split(b)), " ")
  }

  /** The words of the merged reason are those of both reasons, each once and in order. */
  lemma MergeReasonsWords(a: string, b: string)
    ensures var words := SortedSet(set w | w in Split(a) + Split(b));
      MergeReasons(a, b) == Join(words, " ") && StrictlySorted(words)
      && forall w :: w in words <==> w in Split(a) || w in Split(b)
  {
    SortedSetIsStrictlySorted(set w | w in Split(a) + Split(b));
  }

  /**
   * `add_expectations` as written: the reason gains the new bug words, and when the results
   * grow the printed results are rebuilt from the outcomes alone.
   */
  function AddExpectationsAsWritten(e: Expectation, results: set<ResultType>, reason: string): (r: Expectation)
    ensures r.results == e.results + results
    ensures r.tags == e.tags && r.test == e.test && r.lineno == e.lineno
    ensures r.isSlowTest == e.isSlowTest && r.shouldRetryOnFailure == e.shouldRetryOnFailure
    ensures reason == [] ==> r.reason == e.reason
    ensures reason != [] ==> r.reason == MergeReasons(e.reason, reason)
    ensures r == e.(reason := r.reason, results := r.results, rawResults := r.rawResults)
    ensures results <= e.results ==> r.rawResults == e.rawResults
    ensures !(results <= e.results) ==> r.rawResults == SortedSet(Spellings(r.results, false, false))
  {
    var e1 := if reason != [] then e.(reason := MergeReasons(e.reason, reason)) else e;
    if !(results <= e1.results) then
      e1.(results := e1.results + results,
          rawResults := SortedSet(Spellings(e1.results + results, false, false)))
    else e1
  }

  /**
   * `add_expectations` with the printed results rebuilt from the outcomes and the two flags, so
   * that a rewritten line keeps its `Slow` and `RetryOnFailure` tokens.
   */
  function AddExpectations(e: Expectation, results: set<ResultType>, reason: string): (r: Expectation)
    ensures r.results == e.results + results
    ensures r.tags == e.tags && r.test == e.test && r.lineno == e.lineno
    ensures r.isSlowTest == e.isSlowTest && r.shouldRetryOnFailure == e.shouldRetryOnFailure
    ensures reason == [] ==> r.reason == e.reason
    ensures reason != [] ==> r.reason == MergeReasons(e.reason, reason)
    ensures r == e.(reason := r.reason, results := r.results, rawResults := r.rawResults)
    ensures results <= e.results ==> r == e.(reason := r.reason)
    ensures !(results <= e.results) ==> r.rawResults == SortedSet(ResultSpellings(r))
  {
    var e1 := if reason != [] then e.(reason := MergeReasons(e.reason, reason)) else e;
    if !(results <= e1.results) then
      var grown := e1.(results := e1.results + results);
      grown.(rawResults := SortedSet(ResultSpellings(grown)))
    else e1
  }

  /** The printed results name exactly the rule's outcomes and flags. */
  ghost predicate PrintsItsResults(e: Expectation) {
    forall s :: s in PrintedResults(e) <==> s in ResultSpellings(e)
  }

  /** A rule whose printed results were rebuilt from its outcomes and flags prints them. */
  lemma RebuiltResultsPrinted(r: Expectation)
    requires r.results != {} && r.rawResults == SortedSet(ResultSpellings(r))
    ensures PrintsItsResults(r)
  {
    var t :| t in r.results;
    var spellings := ResultSpellings(r);
    assert ResultTag(t) in spellings;
    assert r.rawResults != [];
    forall s ensures s in PrintedResults(r) <==> s in spellings {
      assert s in PrintedResults(r) <==> s in r.rawResults;
    }
  }

  /** Adding results a rule already has leaves what it prints for them unchanged. */
  lemma AddKnownResultsKeepsPrinted(e: Expectation, results: set<ResultType>, reason: string)
    requires results <= e.results
    ensures PrintedResults(AddExpectations(e, results, reason)) == PrintedResults(e)
    ensures ResultSpellings(AddExpectations(e, results, reason)) == ResultSpellings(e)
  {
    var r := AddExpectations(e, results, reason);
    assert r == e.(reason := r.reason);
  }

  /** Adding results keeps a rule's printed results in step with its outcomes and flags. */
  lemma AddExpectationsPrintsItsResults(e: Expectation, results: set<ResultType>, reason: string)
    requires PrintsItsResults(e)
    ensures PrintsItsResults(AddExpectations(e, results, reason))
  {
    if !(results <= e.results) {
      RebuiltResultsPrinted(AddExpectations(e, results, reason));
    } else {
      AddKnownResultsKeepsPrinted(e, results, reason);
    }
  }

  /**
   * As written, adding a result to a slow rule read from `[ Failure Slow ]` drops `Slow` from the
   * printed results although the rule is still slow.
   */
  lemma AddExpectationsAsWrittenDropsSlow()
    ensures var e := NewExpectation("", "t", [], {Failure}, 1, false, true, Union, [],
                                    ["Failure", "Slow"], false, false, "");
      PrintsItsResults(e) && !PrintsItsResults(AddExpectationsAsWritten(e, {Timeout}, ""))
  {
    var e := NewExpectation("", "t", [], {Failure}, 1, false, true, Union, [],
                            ["Failure", "Slow"], false, false, "");
    SlowFailurePrints(e);
    GrownResultsAsWrittenLoseFlags(e, {Timeout}, "");
  }

  /** A slow rule expecting `Failure`, read from `[ Failure Slow ]`, prints its results. */
  lemma SlowFailurePrints(e: Expectation)
    requires e.results == {Failure} && e.isSlowTest && !e.shouldRetryOnFailure
    requires e.rawResults == ["Failure", "Slow"]
    ensures PrintsItsResults(e)
  {
    assert Spellings(e.results, false, false) == {"Failure"};
    assert ResultSpellings(e) == {"Failure", "Slow"};
  }

  lemma GrownResultsAsWrittenLoseFlags(e: Expectation, results: set<ResultType>, reason: string)
    requires e.isSlowTest && !(results <= e.results)
    ensures !PrintsItsResults(AddExpectationsAsWritten(e, results, reason))
  {
    var r := AddExpectationsAsWritten(e, results, reason);
    var names := Spellings(r.results, false, false);
    OutcomeSpellings(r.results);
    var t :| t in r.results;
    assert ResultTag(t) in names;
    assert r.rawResults != [];
    assert SlowTag !in PrintedResults(r);
    assert SlowTag in ResultSpellings(r);
  }

  /** The spellings of outcomes alone include neither flag. */
  lemma OutcomeSpellings(results: set<ResultType>)
    ensures SlowTag !in Spellings(results, false, false) && RetryOnFailureTag !in Spellings(results, false, false)
  {
    ResultTagSpellings();
  }

  /** The `ValueError`s of the `test` setter. */
  datatype SetTestError = EmptyTest | GlobWithoutAsterisk

  /** The `test` setter: refuses an empty name, and a limited glob name not ending in `*`. */
  function SetTest(e: Expectation, v: string): (r: Result<Expectation, SetTestError>)
    ensures r == Err(EmptyTest) <==> v == []
    ensures r == Err(GlobWithoutAsterisk) <==>
      v != [] && e.isGlob && !e.fullWildcardSupport && v[|v| - 1] != '*'
    ensures r.Ok? ==> r.value == e.(test := v)
  {
    if |v| == 0 then Err(EmptyTest)
    else if e.isGlob && !e.fullWildcardSupport && v[|v| - 1] != '*' then Err(GlobWithoutAsterisk)
    else Ok(e.(test := v))
  }

  /** A name the setter accepts never trips the assertion of `to_string`. */
  lemma SetTestKeepsPrintable(e: Expectation, v: string)
    requires SetTest(e, v).Ok?
    ensures ToString(SetTest(e, v).value) != Err(GlobWithoutTrailingAsterisk)
  {
    var r := SetTest(e, v).value;
    if r.isGlob && !r.fullWildcardSupport {
      assert v[|v| - 1..] == "*";
    }
  }
}

/**
 * `TaggedTestListParser._parse_raw_expectation_data` (typ/expectations_parser.py) as a function
 * of the file's lines, and what a successful parse guarantees about the tag sets and the rules.
 */
module Parse {
  import opened Wrappers
  import opened Text
  import opened Expectations
  import opened DataLine
  import opened ParserLines

  /** One shared tag is named as it is, in the singular. */
  lemma OneSharedTagWording(tag: string)
    requires NoSpace(tag)
    ensures MessageText(MultipleTagSets({tag})) == Wording("tag", tag, "was")
  {
    var names := SortedSet({tag});
    assert names == [tag] by {
      assert |names| == 1 && names[0] in {tag};
    }
    GroupToStringSingle(names);
  }

  /** Several shared tags are named sorted, in an English list, in the plural. */
  lemma SharedTagsWording(shared: set<string>)
    requires |shared| > 1 && forall t | t in shared :: NoSpace(t)
    ensures var names := SortedSet(shared);
      MessageText(MultipleTagSets(shared)) == Wording("tags", Join(names[..|names| - 1], ", ") + " and " + names[|names| - 1], "were")
  {
    SortedNamesHaveNoSpace(shared);
    GroupToStringEnglish(SortedSet(shared));
  }

  lemma SortedNamesHaveNoSpace(names: set<string>)
    requires forall t | t in names :: NoSpace(t)
    ensures forall i | 0 <= i < |SortedSet(names)| :: NoSpace(SortedSet(names)[i])
  {
    var sorted := SortedSet(names);
    forall i | 0 <= i < |sorted| ensures NoSpace(sorted[i]) {
      assert sorted[i] in names;
    }
  }

  /** The end of the file: tags declared in two tag sets are reported at the first header. */
  function Finish(st: ParserState, shared: set<string>, firstHeader: nat): (r: Result<ParserState, Failure>)
    ensures r.Ok? <==> shared == {}
    ensures r.Ok? ==> r.value == st
  {
    if shared != {} then Err(ParseError(firstHeader, MultipleTagSets(shared))) else Ok(st)
  }

  /** What one line does to the parse loop: raise, go on to the next line, or stop the loop. */
  datatype Step = Failed(error: Failure) | Next(st: ParserState, shared: set<string>, firstHeader: nat) | Stop

  /** The kinds of line, in the order the loop tries them. */
  predicate IsHeader(line: string) { StartsWith(line, TagToken) || StartsWith(line, ResultToken) }
  predicate IsComment(line: string) { StartsWith(line, "#") || line == [] }
  predicate IsDirective(line: string) {
    StartsWith(line, ConflictResolutionToken) || StartsWith(line, ConflictsAllowedToken)
    || StartsWith(line, FullWildcardSupportToken)
  }
  predicate IsDataLine(line: string) { !IsHeader(line) && !IsDirective(line) && !IsComment(line) }

  /**
   * One turn of the parse loop on line `lineno` (1-based) of the stripped lines: a header, a directive, a
   * comment or blank line, or a data line. `shared` collects the tags declared in two tag sets
   * and `firstHeader` is the first header's line, 0 before it; a data line read once a tag is
   * shared stops the loop.
   */
  function LineStep(lines: seq<string>, lineno: nat, st: ParserState, shared: set<string>, firstHeader: nat): (r: Step)
    requires 1 <= lineno <= |lines|
    ensures r.Stop? <==> shared != {} && IsDataLine(lines[lineno - 1])
    ensures r.Next? ==> r.shared >= shared
    ensures r.Next? && !IsHeader(lines[lineno - 1]) ==> r.shared == shared && r.firstHeader == firstHeader
    ensures r.Next? && IsHeader(lines[lineno - 1]) ==> r.firstHeader == if firstHeader == 0 then lineno else firstHeader
  {
    var line := lines[lineno - 1];
    if IsHeader(line) then
      var h := HeaderLine(st, lines, lineno, line);
      if h.Err? then Failed(h.error) else Next(h.value.0, shared + h.value.1, if firstHeader == 0 then lineno else firstHeader)
    else if StartsWith(line, ConflictResolutionToken) then
      var d := ConflictResolutionLine(st, lineno, line);
      if d.Err? then Failed(d.error) else Next(d.value, shared, firstHeader)
    else if StartsWith(line, ConflictsAllowedToken) then
      var d := ConflictsAllowedLine(st, lineno, line);
      if d.Err? then Failed(d.error) else Next(d.value, shared, firstHeader)
    else if StartsWith(line, FullWildcardSupportToken) then
      var d := FullWildcardSupportLine(st, lineno, line);
      if d.Err? then Failed(d.error) else Next(d.value, shared, firstHeader)
    else if IsComment(line) then Next(st, shared, firstHeader)
    else if shared == {} then
      var e := ExpectationLine(st, lineno, line);
      if e.Err? then Failed(e.error) else Next(st.(expectations := st.expectations + [e.value]), shared, firstHeader)
    else Stop
  }

  /** The body of the parse loop, as a function of the line number and what the loop carries. */
  type Stepper = (nat, ParserState, set<string>, nat) -> Step

  /** `LineStep` over the lines of a file; there is no line outside `1..|lines|`. */
  function StepOf(lines: seq<string>): Stepper {
    (n: nat, st: ParserState, shared: set<string>, first: nat) =>
      if 1 <= n <= |lines| then LineStep(lines, n, st, shared, first) else Stop
  }

  /**
   * The parse loop of `_parse_raw_expectation_data` over lines `lineno..count`, each turn taken
   * by `step`: it raises what a turn raises, and at the end of the file or at a stop it
   * reports tags declared in two tag sets.
   */
  function Run(step: Stepper, count: nat, lineno: nat, st: ParserState, shared: set<string>, firstHeader: nat): (r: Result<ParserState, Failure>)
    decreases count + 1 - lineno
  {
    if lineno > count then Finish(st, shared, firstHeader)
    else
      var s := step(lineno, st, shared, firstHeader);
      if s.Failed? then Err(s.error)
      else if s.Stop? then Finish(st, shared, firstHeader)
      else Run(step, count, lineno + 1, s.st, s.shared, s.firstHeader)
  }

  /** The lines of a file, each stripped of surrounding whitespace as the parser reads it. */
  function StrippedLines(rawData: string): (r: seq<string>)
    ensures |r| == |SplitLines(rawData)| && forall i | 0 <= i < |r| :: r[i] == Strip(SplitLines(rawData)[i])
  {
    var lines := SplitLines(rawData);
    seq(|lines|, i requires 0 <= i < |lines| => Strip(lines[i]))
  }

  /** `_parse_raw_expectation_data` from line `lineno` on. */
  function ParseFrom(lines: seq<string>, lineno: nat, st: ParserState, shared: set<string>, firstHeader: nat): Result<ParserState, Failure> {
    Run(StepOf(lines), |lines|, lineno, st, shared, firstHeader)
  }

  /** `TaggedTestListParser(raw_data, conflict_resolution)`: the parsed state, or what it raises. */
  function ParseAll(rawData: string, conflictResolution: ConflictResolution): Result<ParserState, Failure> {
    ParseFrom(StrippedLines(rawData), 1, InitialState(conflictResolution), {}, 0)
  }

  /** A turn that goes on never forgets a shared tag, and only a shared tag stops the loop. */
  ghost predicate KeepsShared(step: Stepper, count: nat) {
    forall n: nat, st: ParserState, shared: set<string>, first: nat | 1 <= n <= count ::
      (shared != {} && step(n, st, shared, first).Next? ==> step(n, st, shared, first).shared != {})
      && (step(n, st, shared, first).Stop? ==> shared != {})
  }

  lemma LineStepKeepsShared(lines: seq<string>)
    ensures KeepsShared(StepOf(lines), |lines|)
  {
    forall n: nat, st: ParserState, shared: set<string>, first: nat | 1 <= n <= |lines|
      ensures shared != {} && StepOf(lines)(n, st, shared, first).Next? ==> StepOf(lines)(n, st, shared, first).shared != {}
      ensures StepOf(lines)(n, st, shared, first).Stop? ==> shared != {}
    {
      var s := LineStep(lines, n, st, shared, first);
      assert s.Next? ==> s.shared >= shared;
    }
  }

  /** Once a tag is shared, a loop whose turns never forget it fails, whatever follows. */
  lemma {:induction false} RunSharedFails(step: Stepper, count: nat, lineno: nat, st: ParserState, shared: set<string>, firstHeader: nat)
    requires KeepsShared(step, count) && lineno >= 1 && shared != {}
    ensures Run(step, count, lineno, st, shared, firstHeader).Err?
    decreases count + 1 - lineno
  {
    if lineno <= count {
      var s := step(lineno, st, shared, firstHeader);
      if s.Next? {
        RunSharedFails(step, count, lineno + 1, s.st, s.shared, s.firstHeader);
      }
    }
  }

  /**
   * Once a tag has been declared in two tag sets the parse fails whatever follows: a data line
   * stops the loop and the end of the file reports the shared tags.
   */
  lemma SharedTagFails(lines: seq<string>, lineno: nat, st: ParserState, shared: set<string>, firstHeader: nat)
    requires lineno >= 1 && shared != {}
    ensures ParseFrom(lines, lineno, st, shared, firstHeader).Err?
  {
    LineStepKeepsShared(lines);
    RunSharedFails(StepOf(lines), |lines|, lineno, st, shared, firstHeader);
  }

  /** Every turn that shares no tag carries `inv` from a line to the next. */
  ghost predicate Preserves(inv: (nat, ParserState) -> bool, step: Stepper, count: nat) {
    forall n: nat, st: ParserState, first: nat
      | 1 <= n <= count && inv(n, st) && step(n, st, {}, first).Next? && step(n, st, {}, first).shared == {}
      :: inv(n + 1, step(n, st, {}, first).st)
  }

  /**
   * Induction over the parse loop: a property of the line number and the state that holds
   * where the loop starts, and that every turn sharing no tag carries to the next line, holds of
   * the state a successful run returns.
   */
  lemma {:induction false} RunInduction(inv: (nat, ParserState) -> bool, step: Stepper, count: nat, lineno: nat,
                                        st: ParserState, firstHeader: nat)
    requires KeepsShared(step, count) && 1 <= lineno <= count + 1 && inv(lineno, st)
    requires Preserves(inv, step, count)
    requires Run(step, count, lineno, st, {}, firstHeader).Ok?
    ensures inv(count + 1, Run(step, count, lineno, st, {}, firstHeader).value)
    decreases count + 1 - lineno
  {
    if lineno <= count {
      var s := step(lineno, st, {}, firstHeader);
      if s.Next? && s.shared != {} {
        RunSharedFails(step, count, lineno + 1, s.st, s.shared, s.firstHeader);
      } else if s.Next? {
        RunInduction(inv, step, count, lineno + 1, s.st, s.firstHeader);
      }
    } else {
      assert Run(step, count, lineno, st, {}, firstHeader) == Ok(st);
    }
  }

  // ---------------------------------------------------------------- what a successful parse keeps

  /** Every tag of a tag set is mapped. */
  ghost predicate Covered(sets: set<set<string>>, ids: map<string, nat>) {
    forall s, t | s in sets && t in s :: t in ids
  }

  /** Every mapped tag is in a tag set. */
  ghost predicate Declared(sets: set<set<string>>, ids: map<string, nat>) {
    forall t | t in ids :: exists s | s in sets :: t in s
  }

  /** Tags map to the same tag set exactly when they are in the same one. */
  ghost predicate SameSetSameId(sets: set<set<string>>, ids: map<string, nat>) {
    forall s1, s2, t1, t2 {:trigger s1 in sets, s2 in sets, t1 in s1, t2 in s2}
      | s1 in sets && s2 in sets && t1 in s1 && t2 in s2 && t1 in ids && t2 in ids ::
      ids[t1] == ids[t2] <==> s1 == s2
  }

  /** The tag sets and the tag map agree, and every tag set was numbered before `declarations`. */
  ghost predicate TagsConsistent(sets: set<set<string>>, ids: map<string, nat>, declarations: nat) {
    Covered(sets, ids) && Declared(sets, ids) && SameSetSameId(sets, ids)
    && forall t | t in ids :: ids[t] < declarations
  }

  ghost predicate StateConsistent(st: ParserState) {
    TagsConsistent(st.tagSets, st.tagToTagSet, st.declarations)
  }

  /** Consistent tag sets never share a tag. */
  lemma ConsistentSetsDisjoint(sets: set<set<string>>, ids: map<string, nat>, declarations: nat)
    requires TagsConsistent(sets, ids, declarations)
    ensures forall s1, s2 | s1 in sets && s2 in sets && s1 != s2 :: s1 * s2 == {}
  {
    forall s1, s2 | s1 in sets && s2 in sets && s1 != s2 ensures s1 * s2 == {} {
    }
  }

  lemma DeclareKeepsCovered(st: ParserState, tags: set<string>)
    requires Covered(st.tagSets, st.tagToTagSet)
    ensures var st' := DeclareTags(st, tags).0; Covered(st'.tagSets, st'.tagToTagSet)
  {
  }

  lemma DeclareKeepsDeclared(st: ParserState, tags: set<string>)
    requires Declared(st.tagSets, st.tagToTagSet)
    ensures var st' := DeclareTags(st, tags).0; Declared(st'.tagSets, st'.tagToTagSet)
  {
    var st' := DeclareTags(st, tags).0;
    forall t | t in st'.tagToTagSet ensures exists s | s in st'.tagSets :: t in s {
      if t in tags {
        assert tags in st'.tagSets;
      } else {
        var s :| s in st.tagSets && t in s;
        assert s in st'.tagSets;
      }
    }
  }

  lemma DeclareKeepsSameSetSameId(st: ParserState, tags: set<string>)
    requires StateConsistent(st) && DeclareTags(st, tags).1 == {}
    ensures var st' := DeclareTags(st, tags).0; SameSetSameId(st'.tagSets, st'.tagToTagSet)
  {
    var st' := DeclareTags(st, tags).0;
    var ids, ids' := st.tagToTagSet, st'.tagToTagSet;
    assert forall t | t in tags :: t !in ids;
    forall s1, s2, t1, t2 | s1 in st'.tagSets && s2 in st'.tagSets && t1 in s1 && t2 in s2 && t1 in ids' && t2 in ids'
      ensures ids'[t1] == ids'[t2] <==> s1 == s2
    {
      if s1 == tags && s2 == tags {
        assert ids'[t1] == st.declarations == ids'[t2];
      } else if s1 == tags {
        assert s2 in st.tagSets && t2 in ids && t2 !in tags;
        assert ids'[t2] == ids[t2] < st.declarations;
      } else if s2 == tags {
        assert s1 in st.tagSets && t1 in ids && t1 !in tags;
        assert ids'[t1] == ids[t1] < st.declarations;
      } else {
        assert s1 in st.tagSets && s2 in st.tagSets;
        assert t1 in ids && t2 in ids && t1 !in tags && t2 !in tags;
      }
    }
  }

  /** Declaring tags none of which is declared yet keeps the tag sets consistent. */
  lemma DeclareKeepsConsistent(st: ParserState, tags: set<string>)
    requires StateConsistent(st) && DeclareTags(st, tags).1 == {}
    ensures StateConsistent(DeclareTags(st, tags).0)
  {
    DeclareKeepsCovered(st, tags);
    DeclareKeepsDeclared(st, tags);
    DeclareKeepsSameSetSameId(st, tags);
  }

  /** A rule fits a tag map and allowed results: declared tags from distinct sets, allowed known results. */
  ghost predicate RuleFits(ids: map<string, nat>, allowed: set<string>, e: Expectation) {
    (forall t | t in e.tags :: t in ids)
    && (forall t, u | t in e.tags && u in e.tags && t != u :: ids[t] != ids[u])
    && (forall w | w in e.rawResults :: w in allowed && w in ValidResultTags)
  }

  /** Every rule fits, and the rules are in file order, all before line `lineno`. */
  ghost predicate RulesFit(st: ParserState, lineno: nat) {
    (forall i | 0 <= i < |st.expectations| ::
      RuleFits(st.tagToTagSet, st.allowedResults, st.expectations[i]) && st.expectations[i].lineno < lineno)
    && (forall i, j | 0 <= i < j < |st.expectations| :: st.expectations[i].lineno < st.expectations[j].lineno)
  }

  /** What a header does to a consistent state when it shares no tag. */
  lemma HeaderKeeps(st: ParserState, lines: seq<string>, lineno: nat, line: string)
    requires 1 <= lineno <= |lines| && StateConsistent(st)
    requires HeaderLine(st, lines, lineno, line).Ok? && HeaderLine(st, lines, lineno, line).value.1 == {}
    ensures var st' := HeaderLine(st, lines, lineno, line).value.0;
      StateConsistent(st') && st'.expectations == []
  {
    var isTags := StartsWith(line, TagToken);
    var w := HeaderWords(lines, lineno, line, if isTags then |TagToken| else |ResultToken|);
    if isTags && Duplicates(w.value) == {} {
      DeclareKeepsConsistent(st, LoweredSet(WordSet(w.value)));
    }
  }

  /** What a data line does to a state whose rules fit. */
  lemma RuleKeeps(st: ParserState, lineno: nat, line: string)
    requires RulesFit(st, lineno) && ExpectationLine(st, lineno, line).Ok?
    ensures RulesFit(st.(expectations := st.expectations + [ExpectationLine(st, lineno, line).value]), lineno + 1)
  {
    var e := ExpectationLine(st, lineno, line).value;
    AcceptedTags(st, lineno, line);
    AcceptedResults(st, lineno, line);
    AcceptedLine(st, lineno, line);
    AppendKeepsRules(st, lineno, e);
  }

  /** A rule that fits, read on line `lineno`, keeps the rules fitting and in file order. */
  lemma AppendKeepsRules(st: ParserState, lineno: nat, e: Expectation)
    requires RulesFit(st, lineno) && RuleFits(st.tagToTagSet, st.allowedResults, e) && e.lineno == lineno
    ensures RulesFit(st.(expectations := st.expectations + [e]), lineno + 1)
  {
    var es := st.expectations + [e];
    forall i | 0 <= i < |es| ensures RuleFits(st.tagToTagSet, st.allowedResults, es[i]) && es[i].lineno < lineno + 1 {
      if i < |st.expectations| { assert es[i] == st.expectations[i]; }
    }
    forall i, j | 0 <= i < j < |es| ensures es[i].lineno < es[j].lineno {
      assert es[i] == st.expectations[i];
      if j < |st.expectations| { assert es[j] == st.expectations[j]; }
    }
  }

  /** A directive leaves the tag sets, the allowed results and the rules as they were. */
  lemma DirectiveKeeps(st: ParserState, st': ParserState, lineno: nat)
    requires StateConsistent(st) && RulesFit(st, lineno)
    requires st' == st.(conflictResolution := st'.conflictResolution, conflictsAllowed := st'.conflictsAllowed,
                        fullWildcardSupport := st'.fullWildcardSupport)
    ensures StateConsistent(st') && RulesFit(st', lineno + 1)
  {
  }

  /** One turn of the loop that shares no tag keeps the state consistent and the rules fitting. */
  lemma StepKeeps(lines: seq<string>, lineno: nat, st: ParserState, shared: set<string>, firstHeader: nat)
    requires 1 <= lineno <= |lines| && StateConsistent(st) && RulesFit(st, lineno)
    requires var s := LineStep(lines, lineno, st, shared, firstHeader); s.Next? && s.shared == {}
    ensures var s := LineStep(lines, lineno, st, shared, firstHeader); StateConsistent(s.st) && RulesFit(s.st, lineno + 1)
  {
    var line := lines[lineno - 1];
    var s := LineStep(lines, lineno, st, shared, firstHeader);
    if IsHeader(line) {
      HeaderKeeps(st, lines, lineno, line);
    } else if IsDirective(line) || IsComment(line) {
      DirectiveKeeps(st, s.st, lineno);
    } else {
      RuleKeeps(st, lineno, line);
    }
  }

  /** What holds of the state before line `lineno` is read. */
  ghost predicate Invariant(lineno: nat, st: ParserState) {
    StateConsistent(st) && RulesFit(st, lineno)
  }

  lemma StepOfKeeps(lines: seq<string>, n: nat, st: ParserState, fh: nat)
    requires 1 <= n <= |lines| && Invariant(n, st) && StepOf(lines)(n, st, {}, fh).Next? && StepOf(lines)(n, st, {}, fh).shared == {}
    ensures Invariant(n + 1, StepOf(lines)(n, st, {}, fh).st)
  {
    StepKeeps(lines, n, st, {}, fh);
  }

  /** Every turn of the loop that shares no tag keeps `Invariant`. */
  lemma StepsKeepInvariant(lines: seq<string>)
    ensures Preserves(Invariant, StepOf(lines), |lines|)
  {
    forall n: nat, st: ParserState, first: nat
      | 1 <= n <= |lines| && Invariant(n, st) && StepOf(lines)(n, st, {}, first).Next?
        && StepOf(lines)(n, st, {}, first).shared == {}
      ensures Invariant(n + 1, StepOf(lines)(n, st, {}, first).st)
    {
      StepOfKeeps(lines, n, st, first);
    }
  }

  /**
   * A file that parses declares pairwise disjoint tag sets whose tags map to the same tag set
   * exactly when they share one, and yields rules in file order whose tags are declared and from
   * distinct tag sets and whose results are allowed and known.
   */
  lemma ParsedFileIsConsistent(rawData: string, conflictResolution: ConflictResolution)
    requires ParseAll(rawData, conflictResolution).Ok?
    ensures var st := ParseAll(rawData, conflictResolution).value;
      StateConsistent(st) && RulesFit(st, |StrippedLines(rawData)| + 1)
      && forall s1, s2 | s1 in st.tagSets && s2 in st.tagSets && s1 != s2 :: s1 * s2 == {}
  {
    var lines := StrippedLines(rawData);
    StepsKeepInvariant(lines);
    LineStepKeepsShared(lines);
    var init := InitialState(conflictResolution);
    assert Invariant(1, init);
    RunInduction(Invariant, StepOf(lines), |lines|, 1, init, 0);
    var st := ParseAll(rawData, conflictResolution).value;
    ConsistentSetsDisjoint(st.tagSets, st.tagToTagSet, st.declarations);
  }
}

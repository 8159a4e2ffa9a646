/**
 * `TestExpectations` and `_MergedExpectationData` (typ/expectations_parser.py): the store that
 * reads expectation files, files their rules by test name and by glob, answers which results a
 * test is expected to have under the tags in effect, and checks the rules for conflicts and for
 * patterns no test reaches.
 */
module Store {
  import opened Wrappers
  import opened Text
  import opened Wildcards
  import opened Expectations
  import opened Ordering
  import opened Buckets
  import opened ParserLines
  import opened Parse
  import opened Parser
  import opened Lookup
  import opened Checks
  import opened Filing

  /** `_MergedExpectationData`: what `expectations_for` collects from the rules that apply. */
  class MergedExpectationData {
    var results: set<ResultType>
    var reasons: set<string>
    var expTags: set<string>
    var shouldRetryOnFailure: bool
    var isSlowTest: bool
    var trailingComments: string

    /** The fields, as the value the functions of `Lookup` read. */
    function Data(): MergedData
      reads this
    {
      MergedData(results, reasons, expTags, shouldRetryOnFailure, isSlowTest, trailingComments)
    }

    /** The dataclass defaults: nothing merged. */
    constructor ()
      ensures Data() == Empty
    {
      results := {};
      reasons := {};
      expTags := {};
      shouldRetryOnFailure := false;
      isSlowTest := false;
      trailingComments := "";
    }
  }

  class TestExpectations {
    var tagSets: set<set<string>>
    var ignoredTags: set<string>
    var tags: seq<string>
    var individualExps: seq<Bucket>
    var globExps: seq<Bucket>
    var fullWildcardSupport: bool
    var conflictResolution: ConflictResolution
    var fileName: string

    /** Each pattern is filed once, and the globs are longest first. */
    ghost predicate Valid()
      reads this
    {
      DistinctKeys(individualExps) && DistinctKeys(globExps) && LongestFirst(globExps)
    }

    /** The tags in effect, as the set rules' tags are compared with. */
    function TagSet(): set<string>
      reads this
    {
      set t | t in tags
    }

    /** `TestExpectations(tags, ignored_tags)`: nothing declared or filed yet. */
    constructor (tags: seq<string>, ignoredTags: seq<string>)
      ensures Valid() && this.tags == LowerAll(tags) && this.ignoredTags == (set t | t in ignoredTags)
      ensures tagSets == {} && individualExps == [] && globExps == []
      ensures !fullWildcardSupport && conflictResolution == Union && fileName == ""
    {
      tagSets := {};
      this.ignoredTags := set t | t in ignoredTags;
      this.tags := LowerAll(tags);
      individualExps := [];
      globExps := [];
      fullWildcardSupport := false;
      conflictResolution := Union;
      fileName := "";
    }

    /**
     * `validate_condition_tags`: the lower-cased tags no declared set holds and that are not
     * ignored are an error when `raiseEx` asks for one (otherwise only a warning is logged).
     */
    method ValidateConditionTags(tags: seq<string>, raiseEx: bool) returns (err: Option<Raised>)
      ensures var unknown := UnknownTags(tagSets, ignoredTags, tags);
        (err.Some? <==> raiseEx && unknown != {})
        && (err.Some? ==> err.value == UnknownTagsError(unknown))
    {
      var unknown := UnknownTags(tagSets, ignoredTags, tags);
      if unknown != {} && raiseEx {
        return Some(UnknownTagsError(unknown));
      }
      return None;
    }

    /** `set_tags`: the tags in effect become the given ones, lower-cased, unless validation raises. */
    method SetTags(tags: seq<string>, raiseEx: bool) returns (err: Option<Raised>)
      modifies this
      ensures var unknown := UnknownTags(tagSets, ignoredTags, tags);
        err.Some? <==> raiseEx && unknown != {}
      ensures err.None? ==> this.tags == LowerAll(tags)
      ensures err.Some? ==> this.tags == old(this.tags)
      ensures tagSets == old(tagSets) && ignoredTags == old(ignoredTags) && individualExps == old(individualExps)
      ensures globExps == old(globExps) && fullWildcardSupport == old(fullWildcardSupport)
      ensures conflictResolution == old(conflictResolution) && fileName == old(fileName)
    {
      err := ValidateConditionTags(tags, raiseEx);
      if err.None? {
        this.tags := LowerAll(tags);
      }
    }

    /**
     * `add_tags`: the tags in effect gain the given ones, lower-cased, each once, unless
     * validation raises.
     */
    method AddTags(newTags: seq<string>, raiseEx: bool) returns (err: Option<Raised>)
      modifies this
      ensures !raiseEx ==> err.None?
      ensures raiseEx ==> (err.Some? <==> UnknownTags(tagSets, ignoredTags, newTags) != {})
      ensures err.None? ==> TagsJoined(old(tags), newTags, tags)
      ensures err.Some? ==> tags == old(tags)
      ensures tagSets == old(tagSets) && ignoredTags == old(ignoredTags) && individualExps == old(individualExps)
      ensures globExps == old(globExps) && fullWildcardSupport == old(fullWildcardSupport)
      ensures conflictResolution == old(conflictResolution) && fileName == old(fileName)
    {
      err := ValidateConditionTags(newTags, raiseEx);
      if err.None? {
        var union := (set t | t in tags) + (set t | t in LowerAll(newTags));
        tags := SortedSet(union);
        assert TagSet() == union;
      }
    }

    /**
     * `parse_tagged_list`: reads a file and files its rules. The file name and the conflict
     * resolution given are recorded first; a file that does not parse gives `(1, "n: message")`
     * for a `ParseError` at line `n`, raises for an `IndexError`, and files nothing; a parsed
     * file is taken in as `Ingested` says.
     */
    method ParseTaggedList(rawData: string, fileName: string, tagsConflict: Option<(string, string) -> bool>,
                           conflictResolution: ConflictResolution) returns (r: Result<(int, string), Raised>)
      requires Valid()
      modifies this
      ensures Valid()
      ensures this.fileName == fileName && tags == old(tags) && ignoredTags == old(ignoredTags)
      ensures var p := ParseAll(rawData, conflictResolution);
        p.Err? ==> r == (if p.error.ParseError? then Ok((1, DecimalText(p.error.lineno) + ": " + MessageText(p.error.msg)))
                         else Err(Raised.IndexError))
      ensures var p := ParseAll(rawData, conflictResolution);
        p.Err? ==>
          && this.conflictResolution == conflictResolution && tagSets == old(tagSets)
          && fullWildcardSupport == old(fullWildcardSupport)
          && individualExps == old(individualExps) && globExps == old(globExps)
      ensures var p := ParseAll(rawData, conflictResolution);
        p.Ok? ==> Ingested(p.value, r, if tagsConflict.Some? then tagsConflict.value else DefaultTagsConflict,
                           conflictResolution)
    {
      this.fileName := fileName;
      this.conflictResolution := conflictResolution;
      var tagsConflictFn := if tagsConflict.Some? then tagsConflict.value else DefaultTagsConflict;
      var parse := Parse(rawData, conflictResolution);
      r := TakeIn(parse, tagsConflictFn);
    }

    /** The part of `parse_tagged_list` after the parser has run. */
    method TakeIn(parse: Result<ParserState, Failure>, tagsConflict: (string, string) -> bool)
      returns (r: Result<(int, string), Raised>)
      requires Valid()
      modifies this
      ensures Valid()
      ensures fileName == old(fileName) && tags == old(tags) && ignoredTags == old(ignoredTags)
      ensures parse.Err? ==> r == (if parse.error.ParseError? then Ok((1, DecimalText(parse.error.lineno) + ": " + MessageText(parse.error.msg)))
                                   else Err(Raised.IndexError))
      ensures parse.Err? ==>
          && conflictResolution == old(conflictResolution) && tagSets == old(tagSets)
          && fullWildcardSupport == old(fullWildcardSupport)
          && individualExps == old(individualExps) && globExps == old(globExps)
      ensures parse.Ok? ==> Ingested(parse.value, r, tagsConflict, old(conflictResolution))
    {
      if parse.Err? {
        if parse.error.ParseError? {
          return Ok((1, DecimalText(parse.error.lineno) + ": " + MessageText(parse.error.msg)));
        }
        return Err(Raised.IndexError);
      }
      r := Ingest(parse.value, tagsConflict);
    }

    /** The parser run on the file: the state it reaches, or what it raises. */
    static method Parse(rawData: string, conflictResolution: ConflictResolution)
      returns (parse: Result<ParserState, Failure>)
      ensures parse == ParseAll(rawData, conflictResolution)
    {
      var parsed := TaggedTestListParser.FromRawData(rawData, conflictResolution);
      parse := if parsed.Ok? then Ok(parsed.value.State()) else Err(parsed.error);
    }

    /**
     * What taking in a parsed file does. Tag sets other than those of an earlier file raise,
     * and only the conflict resolution given to `parse_tagged_list` has changed. Otherwise the
     * file's tag sets, conflict resolution and wildcard mode take effect, its rules are filed
     * (see `FileRules`), and unless the file allows conflicts the conflict report over all the
     * patterns is returned, with 1 when it is not empty.
     */
    twostate predicate Ingested(st: ParserState, new r: Result<(int, string), Raised>, tagsConflict: (string, string) -> bool,
                                conflictResolution: ConflictResolution)
      reads this
    {
      if old(tagSets) != {} && old(tagSets) != st.tagSets then
        r == Err(RuntimeError) && this.conflictResolution == conflictResolution && tagSets == old(tagSets)
        && fullWildcardSupport == old(fullWildcardSupport)
        && individualExps == old(individualExps) && globExps == old(globExps)
      else
        tagSets == st.tagSets && this.conflictResolution == st.conflictResolution
        && fullWildcardSupport == st.fullWildcardSupport
        && individualExps == AddRules(old(individualExps), Individual(st.expectations))
        && globExps == FileGlobs(old(globExps), Globs(st.expectations))
        && var report := ConflictReport(tagSets, UpdateBuckets(individualExps, globExps), fileName, tagsConflict);
        r == Ok(if st.conflictsAllowed then (0, "") else (if report != "" then 1 else 0, report))
    }

    /** The part of `parse_tagged_list` after the parser has read the file. */
    method Ingest(st: ParserState, tagsConflict: (string, string) -> bool) returns (r: Result<(int, string), Raised>)
      requires Valid()
      modifies this
      ensures Valid() && Ingested(st, r, tagsConflict, old(conflictResolution))
      ensures fileName == old(fileName) && tags == old(tags) && ignoredTags == old(ignoredTags)
    {
      if tagSets != {} {
        if tagSets != st.tagSets {
          return Err(RuntimeError);
        }
      } else {
        tagSets := st.tagSets;
      }
      conflictResolution := st.conflictResolution;
      fullWildcardSupport := st.fullWildcardSupport;
      FileRules(st.expectations);
      var errors := "";
      var ret := 0;
      if !st.conflictsAllowed {
        errors := CheckTestExpectationsPatternsForConflicts(tagsConflict);
        ret := if errors != "" then 1 else 0;
      }
      return Ok((ret, errors));
    }

    /**
     * The filing part of `parse_tagged_list`: the rules that name one test appended under it,
     * then the glob rules, longest pattern first, under theirs, and the globs re-sorted longest
     * first.
     */
    method FileRules(exps: seq<Expectation>)
      requires Valid()
      modifies this
      ensures Valid()
      ensures individualExps == AddRules(old(individualExps), Individual(exps))
      ensures globExps == FileGlobs(old(globExps), Globs(exps))
      ensures tagSets == old(tagSets) && ignoredTags == old(ignoredTags) && tags == old(tags)
      ensures fullWildcardSupport == old(fullWildcardSupport) && conflictResolution == old(conflictResolution)
      ensures fileName == old(fileName)
    {
      var individual, globs := SplitRules(individualExps, exps);
      individualExps := individual;
      var filed := AppendRules(globExps, SortByKey(globs, TestLength));
      // The longest-first order the lookup relies on, restored as `merge_test_expectations` does.
      globExps := SortByKey(filed, PatternLength);
      FileGlobsKeeps(old(globExps), Globs(exps), "");
    }

    /** The first loop of the filing: rules naming one test appended under it, glob rules set aside in order. */
    static method SplitRules(d: seq<Bucket>, exps: seq<Expectation>) returns (individual: seq<Bucket>, globs: seq<Expectation>)
      requires DistinctKeys(d)
      ensures individual == AddRules(d, Individual(exps)) && DistinctKeys(individual)
      ensures globs == Globs(exps)
    {
      individual := d;
      globs := [];
      ghost var rules: seq<Expectation> := [];
      var i := 0;
      while i < |exps|
        invariant i <= |exps| && globs == Globs(exps[..i]) && rules == Individual(exps[..i])
        invariant individual == AddRules(d, rules) && DistinctKeys(individual)
      {
        var exp := exps[i];
        assert exps[..i + 1] == exps[..i] + [exp];
        SplitSnoc(exps[..i], exp);
        if exp.isGlob {
          globs := globs + [exp];
        } else {
          ExtendDistinct(individual, exp.test, [exp]);
          AddRulesSnoc(d, rules, exp);
          individual := Extend(individual, exp.test, [exp]);
          rules := rules + [exp];
        }
        i := i + 1;
      }
      assert exps[..i] == exps;
    }

    /** `d.setdefault(exp.test, []).append(exp)` for each rule, in order. */
    static method AppendRules(d: seq<Bucket>, rules: seq<Expectation>) returns (r: seq<Bucket>)
      ensures r == AddRules(d, rules)
    {
      r := d;
      var j := 0;
      while j < |rules|
        invariant j <= |rules| && r == AddRules(d, rules[..j])
      {
        assert rules[..j + 1][..j] == rules[..j];
        r := Extend(r, rules[j].test, [rules[j]]);
        j := j + 1;
      }
      assert rules[..j] == rules;
    }

    /**
     * `merge_test_expectations`: the other store's tags join the tags in effect, its rules go
     * after this store's rules for the same pattern, and the globs are re-sorted longest first.
     */
    method MergeTestExpectations(other: TestExpectations)
      requires Valid()
      modifies this
      ensures Valid()
      ensures TagsJoined(old(tags), old(other.tags), tags)
      ensures individualExps == MergeBuckets(old(individualExps), old(other.individualExps))
      ensures globExps == SortByKey(MergeBuckets(old(globExps), old(other.globExps)), PatternLength)
      ensures tagSets == old(tagSets) && ignoredTags == old(ignoredTags) && fullWildcardSupport == old(fullWildcardSupport)
      ensures conflictResolution == old(conflictResolution) && fileName == old(fileName)
    {
      var otherTags := other.tags;
      var otherIndividual := other.individualExps;
      var otherGlobs := other.globExps;
      var err := AddTags(otherTags, false);
      assert err.None?;
      MergeBucketsDistinct(individualExps, otherIndividual);
      individualExps := MergeInto(individualExps, otherIndividual);
      globExps := MergeGlobs(globExps, otherGlobs);
    }

    /** The globs of both stores merged, then re-sorted longest first. */
    static method MergeGlobs(globs: seq<Bucket>, otherGlobs: seq<Bucket>) returns (r: seq<Bucket>)
      requires DistinctKeys(globs)
      ensures r == SortByKey(MergeBuckets(globs, otherGlobs), PatternLength)
      ensures DistinctKeys(r) && LongestFirst(r)
    {
      var merged := MergeInto(globs, otherGlobs);
      MergeBucketsDistinct(globs, otherGlobs);
      SortBucketsKeeps(merged, "");
      SortedBucketsLongestFirst(merged);
      r := SortByKey(merged, PatternLength);
    }

    /** `for pattern, exps in other.items(): d.setdefault(pattern, []).extend(exps)`. */
    static method MergeInto(d: seq<Bucket>, other: seq<Bucket>) returns (r: seq<Bucket>)
      ensures r == MergeBuckets(d, other)
    {
      r := d;
      var i := 0;
      while i < |other|
        invariant i <= |other| && r == MergeBuckets(d, other[..i])
      {
        assert other[..i + 1][..i] == other[..i];
        r := Extend(r, other[i].0, other[i].1);
        i := i + 1;
      }
      assert other[..i] == other;
    }

    /** `_maybe_merge_expectation_data`: merges the rule into `merged` when its tags are all in effect. */
    method MaybeMergeExpectationData(exp: Expectation, merged: MergedExpectationData)
      modifies merged
      ensures merged.Data() == MergeRule(old(merged.Data()), exp, TagSet())
    {
      if !(exp.tags <= TagSet()) {
        return;
      }
      if exp.conflictResolution == Union {
        MergeUnion(exp, merged);
      } else {
        merged.results := exp.results;
        merged.shouldRetryOnFailure := exp.shouldRetryOnFailure;
        merged.isSlowTest := exp.isSlowTest;
        merged.expTags := exp.tags;
        merged.trailingComments := exp.trailingComments;
        if exp.reason != "" {
          merged.reasons := {exp.reason};
        }
      }
    }

    /** The union branch: results, tags, reasons and comments accumulate and the flags are or-ed. */
    static method MergeUnion(exp: Expectation, merged: MergedExpectationData)
      requires exp.conflictResolution == Union
      modifies merged
      ensures merged.results == if exp.isDefaultPass then old(merged.results) else old(merged.results) + exp.results
      ensures merged.reasons == if exp.reason != "" then old(merged.reasons) + {exp.reason} else old(merged.reasons)
      ensures merged.expTags == old(merged.expTags) + exp.tags
      ensures merged.shouldRetryOnFailure == (old(merged.shouldRetryOnFailure) || exp.shouldRetryOnFailure)
      ensures merged.isSlowTest == (old(merged.isSlowTest) || exp.isSlowTest)
      ensures merged.trailingComments
        == if exp.trailingComments != "" then old(merged.trailingComments) + exp.trailingComments + "\n" else old(merged.trailingComments)
    {
      var results, reasons, comments := merged.results, merged.reasons, merged.trailingComments;
      if !exp.isDefaultPass {
        results := results + exp.results;
      }
      if exp.trailingComments != "" {
        comments := comments + exp.trailingComments + "\n";
      }
      if exp.reason != "" {
        reasons := reasons + {exp.reason};
      }
      merged.results, merged.reasons, merged.expTags, merged.shouldRetryOnFailure, merged.isSlowTest, merged.trailingComments :=
        results, reasons, merged.expTags + exp.tags,
        merged.shouldRetryOnFailure || exp.shouldRetryOnFailure, merged.isSlowTest || exp.isSlowTest, comments;
    }

    /** Merges each rule of `exps`, in order, into `merged`. */
    method MergeAll(exps: seq<Expectation>, merged: MergedExpectationData)
      modifies merged
      ensures merged.Data() == MergeRules(old(merged.Data()), exps, TagSet())
    {
      var k := 0;
      while k < |exps|
        invariant k <= |exps| && merged.Data() == MergeRules(old(merged.Data()), exps[..k], TagSet())
      {
        assert exps[..k + 1][..k] == exps[..k];
        MaybeMergeExpectationData(exps[k], merged);
        k := k + 1;
      }
      assert exps[..k] == exps;
    }

    /**
     * `expectations_for`: the rules filed under the test, merged; failing that, the globs in
     * order, merging the rules of every glob that covers the test until something is merged;
     * failing that, the default pass.
     */
    method ExpectationsFor(test: string) returns (e: Expectation)
      ensures e == ExpectationFor(individualExps, globExps, TagSet(), fullWildcardSupport, conflictResolution, test)
    {
      var merged := new MergedExpectationData();
      MergeAll(Get(individualExps, test), merged);
      if ContainsData(merged.Data()) {
        return AsExpectation(merged.Data(), test, conflictResolution);
      }
      ghost var m0 := merged.Data();
      var g := 0;
      while g < |globExps|
        invariant g <= |globExps| && !ContainsData(merged.Data())
        invariant SearchGlobs(globExps, g, merged.Data(), test, TagSet(), fullWildcardSupport, conflictResolution)
          == SearchGlobs(globExps, 0, m0, test, TagSet(), fullWildcardSupport, conflictResolution)
      {
        var glob := globExps[g].0;
        var covers: bool;
        if fullWildcardSupport {
          covers := GlobMatch(glob, test);
        } else {
          covers := StartsWith(test, GlobPrefix(glob));
        }
        if covers {
          MergeAll(globExps[g].1, merged);
        }
        if ContainsData(merged.Data()) {
          return AsExpectation(merged.Data(), test, conflictResolution);
        }
        g := g + 1;
      }
      return DefaultExpectation(test);
    }

    /** `tag_sets_conflict`: searches the declared sets for two tags, one of each rule, that `tagsConflict` tells apart. */
    method TagSetsConflict(s1: set<string>, s2: set<string>, tagsConflict: (string, string) -> bool) returns (c: bool)
      ensures c == Checks.TagSetsConflict(tagSets, s1, s2, tagsConflict)
    {
      var rest := tagSets;
      while rest != {}
        invariant rest <= tagSets
        invariant forall ts | ts in tagSets - rest :: !TellsApart(ts, s1, s2, tagsConflict)
        decreases rest
      {
        var ts :| ts in rest;
        var xs := s1;
        while xs != {}
          invariant xs <= s1
          invariant forall t1, t2 | t1 in s1 - xs && t2 in s2 && t1 in ts && t2 in ts :: !tagsConflict(t1, t2)
          decreases xs
        {
          var t1 :| t1 in xs;
          var ys := s2;
          while ys != {}
            invariant ys <= s2
            invariant forall t2 | t2 in s2 - ys && t1 in ts && t2 in ts :: !tagsConflict(t1, t2)
            decreases ys
          {
            var t2 :| t2 in ys;
            if t1 in ts && t2 in ts && tagsConflict(t1, t2) {
              assert TellsApart(ts, s1, s2, tagsConflict);
              return false;
            }
            ys := ys - {t2};
          }
          xs := xs - {t1};
        }
        assert !TellsApart(ts, s1, s2, tagsConflict);
        rest := rest - {ts};
      }
      return true;
    }

    /**
     * `check_test_expectations_patterns_for_conflicts`: for every pattern, the individual ones
     * then the globs not among them, reports each pair of its rules whose tags conflict.
     */
    method CheckTestExpectationsPatternsForConflicts(tagsConflict: (string, string) -> bool) returns (msg: string)
      ensures msg == ConflictReport(tagSets, UpdateBuckets(individualExps, globExps), fileName, tagsConflict)
    {
      var patterns := UpdateBuckets(individualExps, globExps);
      msg := "";
      var p := 0;
      while p < |patterns|
        invariant p <= |patterns| && msg == ConflictReport(tagSets, patterns[..p], fileName, tagsConflict)
      {
        assert patterns[..p + 1][..p] == patterns[..p];
        var lines := PatternConflicts(patterns[p].0, patterns[p].1, tagsConflict);
        msg := msg + lines;
        p := p + 1;
      }
      assert patterns[..p] == patterns;
    }

    /** One pattern's part of the report: the header before the first conflicting pair, then one line per pair. */
    method PatternConflicts(pattern: string, exps: seq<Expectation>, tagsConflict: (string, string) -> bool)
      returns (msg: string)
      ensures msg == PatternReport(tagSets, pattern, exps, fileName, tagsConflict)
    {
      msg := "";
      var conflictsExist := false;
      var i := 0;
      while i < |exps|
        invariant i <= |exps|
        invariant ReportSoFar(tagSets, ConflictHeader(pattern, fileName), exps, i, tagsConflict, msg, conflictsExist)
      {
        msg, conflictsExist := NextRow(pattern, exps, i, tagsConflict, msg, conflictsExist);
        i := i + 1;
      }
    }

    /**
     * `msg` is the report on the pairs whose first index is below `i`, opened by `header`;
     * `conflictsExist` says it is not empty.
     */
    static ghost predicate ReportSoFar(tagSets: set<set<string>>, header: string, exps: seq<Expectation>, i: nat,
                                       tagsConflict: (string, string) -> bool, msg: string, conflictsExist: bool)
      requires i <= |exps|
    {
      var lines := PairLines(tagSets, exps, i, tagsConflict);
      && (conflictsExist <==> lines != "")
      && msg == if conflictsExist then header + lines else ""
    }

    /** The report after the pairs whose first index is `i`. */
    method NextRow(pattern: string, exps: seq<Expectation>, i: nat, tagsConflict: (string, string) -> bool,
                   msg: string, conflictsExist: bool) returns (msg': string, conflictsExist': bool)
      requires i < |exps| && ReportSoFar(tagSets, ConflictHeader(pattern, fileName), exps, i, tagsConflict, msg, conflictsExist)
      ensures ReportSoFar(tagSets, ConflictHeader(pattern, fileName), exps, i + 1, tagsConflict, msg', conflictsExist')
    {
      var row := RowConflicts(exps, i, tagsConflict);
      PairLinesNext(tagSets, exps, i, tagsConflict);
      msg', conflictsExist' :=
        AddRow(ConflictHeader(pattern, fileName), msg, conflictsExist, PairLines(tagSets, exps, i, tagsConflict), row);
    }

    /** Appends one row of pair lines to a pattern's report, opening it with `header` on its first line. */
    static method AddRow(header: string, msg: string, conflictsExist: bool, ghost lines: string, row: string)
      returns (msg': string, conflictsExist': bool)
      requires conflictsExist <==> lines != ""
      requires msg == if conflictsExist then header + lines else ""
      ensures conflictsExist' <==> lines + row != ""
      ensures msg' == if conflictsExist' then header + (lines + row) else ""
    {
      msg', conflictsExist' := msg, conflictsExist;
      if row != "" {
        if !conflictsExist' {
          msg' := msg' + header;
        }
        conflictsExist' := true;
        msg' := msg' + row;
      }
      if conflictsExist {
        assert msg' == header + (lines + row);
      }
    }

    /** The lines for the pairs `(exps[i], exps[j])`, `j > i`, whose tag sets conflict, in order. */
    method RowConflicts(exps: seq<Expectation>, i: nat, tagsConflict: (string, string) -> bool) returns (row: string)
      requires i < |exps|
      ensures row == RowLines(tagSets, exps, i, |exps|, tagsConflict)
    {
      row := "";
      var j := i + 1;
      while j < |exps|
        invariant i + 1 <= j <= |exps| && row == RowLines(tagSets, exps, i, j, tagsConflict)
      {
        var c := TagSetsConflict(exps[i].tags, exps[j].tags, tagsConflict);
        assert c == PairConflicts(tagSets, exps, i, j, tagsConflict);
        if c {
          row := row + PairLine(exps[i], exps[j]);
        }
        j := j + 1;
      }
    }

    /**
     * `check_for_broken_expectations`: the rules filed under a name not listed, then those
     * filed under a glob no listed name reaches.
     */
    method CheckForBrokenExpectations(testNames: seq<string>) returns (r: Result<seq<Expectation>, Raised>)
      ensures r == BrokenExpectations(individualExps, globExps, (set n | n in testNames), fullWildcardSupport)
    {
      var names := set n | n in testNames;
      var broken: seq<Expectation> := [];
      var i := 0;
      while i < |individualExps|
        invariant i <= |individualExps| && broken == BrokenIndividual(individualExps[..i], names)
      {
        assert individualExps[..i + 1][..i] == individualExps[..i];
        if individualExps[i].0 !in names {
          broken := broken + individualExps[i].1;
        }
        i := i + 1;
      }
      assert individualExps[..i] == individualExps;
      if fullWildcardSupport {
        var brokenGlobs := CheckForBrokenGlobExpectationsFull(names);
        return Ok(broken + brokenGlobs);
      }
      var brokenGlobs := CheckForBrokenGlobExpectationsSimple(names);
      if brokenGlobs.Err? {
        return Err(brokenGlobs.error);
      }
      return Ok(broken + brokenGlobs.value);
    }

    /**
     * `_check_for_broken_glob_expectations_simple`: builds the trie of the names, each ended
     * by a NUL, and walks each glob down it, less a final star; a walk that falls off marks the
     * glob broken. An empty name cannot be put in the trie.
     */
    method CheckForBrokenGlobExpectationsSimple(names: set<string>) returns (r: Result<seq<Expectation>, Raised>)
      requires !fullWildcardSupport
      ensures r == if "" in names then Err(Raised.IndexError) else Ok(BrokenGlobs(globExps, names, false))
    {
      var trie: set<string> := {};
      var remaining := names;
      while remaining != {}
        invariant remaining <= names && trie == TriePaths(names - remaining)
        invariant "" in names ==> "" in remaining
        decreases remaining
      {
        var test :| test in remaining;
        if test == "" {
          return Err(Raised.IndexError);
        }
        var word := test + "\0";
        var k := 1;
        while k <= |word|
          invariant 1 <= k <= |word| + 1
          invariant trie == TriePaths(names - remaining) + (set m | 1 <= m < k :: word[..m])
        {
          trie := trie + {word[..k]};
          k := k + 1;
        }
        TriePathsAdd(names - remaining, test);
        assert names - (remaining - {test}) == (names - remaining) + {test};
        remaining := remaining - {test};
      }
      assert names - remaining == names;
      var broken: seq<Expectation> := [];
      var g := 0;
      while g < |globExps|
        invariant g <= |globExps| && broken == BrokenGlobs(globExps[..g], names, false)
      {
        assert globExps[..g + 1][..g] == globExps[..g];
        var pattern := globExps[g].0;
        var fellOff := WalkTrie(pattern, trie, names);
        if fellOff {
          broken := broken + globExps[g].1;
        }
        g := g + 1;
      }
      assert globExps[..g] == globExps;
      return Ok(broken);
    }

    /** The inner loop of the simple check: whether walking `pattern`, less a final star, falls off the trie. */
    static method WalkTrie(pattern: string, trie: set<string>, names: set<string>) returns (fellOff: bool)
      requires trie == TriePaths(names)
      ensures fellOff == GlobBroken(pattern, names, false)
    {
      var i := 0;
      while i < |pattern|
        invariant i <= |pattern|
        invariant forall m | 1 <= m <= i :: pattern[..m] in trie
      {
        if pattern[i] == '*' && i == |pattern| - 1 {
          assert WalkedPrefix(pattern) == pattern[..i];
          return false;
        }
        if pattern[..i + 1] !in trie {
          assert |WalkedPrefix(pattern)| >= i + 1 && WalkedPrefix(pattern)[..i + 1] == pattern[..i + 1];
          TriePathsPrefixClosed(names, WalkedPrefix(pattern), i + 1);
          return true;
        }
        i := i + 1;
      }
      assert pattern[..i] == pattern;
      return false;
    }

    /** `_check_for_broken_glob_expectations_full`: a glob is broken when no name matches it. */
    method CheckForBrokenGlobExpectationsFull(names: set<string>) returns (broken: seq<Expectation>)
      requires fullWildcardSupport
      ensures broken == BrokenGlobs(globExps, names, true)
    {
      broken := [];
      var g := 0;
      while g < |globExps|
        invariant g <= |globExps| && broken == BrokenGlobs(globExps[..g], names, true)
      {
        assert globExps[..g + 1][..g] == globExps[..g];
        var matched := AnyNameMatches(globExps[g].0, names);
        if !matched {
          broken := broken + globExps[g].1;
        }
        g := g + 1;
      }
      assert globExps[..g] == globExps;
    }

    /** The inner loop of the full check: whether some name matches the glob. */
    static method AnyNameMatches(pattern: string, names: set<string>) returns (matched: bool)
      ensures matched <==> !GlobBroken(pattern, names, true)
    {
      var remaining := names;
      matched := false;
      while remaining != {} && !matched
        invariant remaining <= names
        invariant matched <==> exists n | n in names - remaining :: GlobMatch(pattern, n)
        decreases remaining
      {
        var test :| test in remaining;
        assert names - (remaining - {test}) == (names - remaining) + {test};
        if GlobMatch(pattern, test) {
          matched := true;
        }
        remaining := remaining - {test};
      }
      if !matched {
        assert names - remaining == names;
      }
    }
  }

  /** `after` lists the tags of `before` and the lower-cased tags of `added`, and no others, each once. */
  ghost predicate TagsJoined(before: seq<string>, added: seq<string>, after: seq<string>) {
    (forall t :: t in after <==> t in before || t in LowerAll(added)) && |after| == |set t | t in after|
  }

  /** Putting one more name in the trie adds the prefixes of that name with its NUL. */
  lemma TriePathsAdd(names: set<string>, test: string)
    ensures TriePaths(names + {test}) == TriePaths(names) + (set m | 1 <= m < |test + "\0"| + 1 :: (test + "\0")[..m])
  {
  }

  /** The trie holds every nonempty prefix of its paths. */
  lemma TriePathsPrefixClosed(names: set<string>, path: string, m: nat)
    requires 1 <= m <= |path|
    ensures path in TriePaths(names) ==> path[..m] in TriePaths(names)
  {
    if path in TriePaths(names) {
      var n: string, k: nat :| n in names && 1 <= k <= |n| + 1 && (n + "\0")[..k] == path;
      assert (n + "\0")[..m] == path[..m];
    }
  }
}

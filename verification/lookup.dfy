/**
 * `expectations_for` of `TestExpectations` (typ/expectations_parser.py) as functions on the
 * rule buckets: the rules filed under the test itself are merged first; only when they carry
 * nothing are the glob buckets searched, in order, merging the rules of every glob that covers
 * the test until the merged data carries something.
 */
module Lookup {
  import opened Text
  import opened Wildcards
  import opened Expectations
  import opened Ordering
  import opened Buckets

  /** `_MergedExpectationData`. */
  datatype MergedData = MergedData(
    results: set<ResultType>,
    reasons: set<string>,
    expTags: set<string>,
    shouldRetryOnFailure: bool,
    isSlowTest: bool,
    trailingComments: string)

  /** `_MergedExpectationData()`: nothing merged yet. */
  const Empty := MergedData({}, {}, {}, false, false, "")

  /** `contains_merged_data`: some result, or one of the two flags. */
  predicate ContainsData(m: MergedData) {
    m.results != {} || m.isSlowTest || m.shouldRetryOnFailure
  }

  /**
   * `as_expectation`: the merged data as the rule for `test`, the reasons joined by spaces in
   * sorted order. No merged result means the default pass.
   */
  function AsExpectation(m: MergedData, test: string, cr: ConflictResolution): (e: Expectation)
    ensures e.test == test && e.tags == m.expTags && e.conflictResolution == cr && e.lineno == 0
    ensures e.isSlowTest == m.isSlowTest && e.shouldRetryOnFailure == m.shouldRetryOnFailure
    ensures e.trailingComments == m.trailingComments
    ensures e.isDefaultPass <==> m.results == {}
    ensures m.results != {} ==> e.results == m.results
    ensures m.results == {} ==> e.results == {Pass}
    ensures e.reason == Join(SortedSet(m.reasons), " ")
  {
    NewExpectation(Join(SortedSet(m.reasons), " "), test, SortedSet(m.expTags), m.results, 0,
                   m.shouldRetryOnFailure, m.isSlowTest, cr, [], [], false, false, m.trailingComments)
  }

  /**
   * `_maybe_merge_expectation_data`: a rule whose tags are all in effect is merged; a union
   * rule adds to what is there, an override rule replaces it (keeping the reasons when it has
   * none of its own).
   */
  function MergeRule(m: MergedData, e: Expectation, tags: set<string>): MergedData {
    if !(e.tags <= tags) then m
    else if e.conflictResolution == Union then
      MergedData(
        if e.isDefaultPass then m.results else m.results + e.results,
        if e.reason != [] then m.reasons + {e.reason} else m.reasons,
        m.expTags + e.tags,
        m.shouldRetryOnFailure || e.shouldRetryOnFailure,
        m.isSlowTest || e.isSlowTest,
        if e.trailingComments != [] then m.trailingComments + e.trailingComments + "\n" else m.trailingComments)
    else
      MergedData(e.results, if e.reason != [] then {e.reason} else m.reasons, e.tags,
                 e.shouldRetryOnFailure, e.isSlowTest, e.trailingComments)
  }

  /** The rules of `exps`, in order, merged into `m`. */
  function MergeRules(m: MergedData, exps: seq<Expectation>, tags: set<string>): MergedData {
    if exps == [] then m
    else MergeRule(MergeRules(m, exps[..|exps| - 1], tags), exps[|exps| - 1], tags)
  }

  /** Limited mode covers the names starting with the glob less its last character. */
  function GlobPrefix(glob: string): string {
    if glob == [] then [] else glob[..|glob| - 1]
  }

  /** Whether the glob bucket `glob` covers `test` in the file's wildcard mode. */
  predicate GlobApplies(glob: string, test: string, fullWildcardSupport: bool) {
    if fullWildcardSupport then GlobMatch(glob, test) else StartsWith(test, GlobPrefix(glob))
  }

  /** The glob loop of `expectations_for`, from bucket `i` on, with `m` merged so far. */
  function SearchGlobs(globs: seq<Bucket>, i: nat, m: MergedData, test: string, tags: set<string>,
                       full: bool, cr: ConflictResolution): Expectation
    decreases |globs| - i
  {
    if i >= |globs| then DefaultExpectation(test)
    else
      var m' := if GlobApplies(globs[i].0, test, full) then MergeRules(m, globs[i].1, tags) else m;
      if ContainsData(m') then AsExpectation(m', test, cr)
      else SearchGlobs(globs, i + 1, m', test, tags, full, cr)
  }

  /** `expectations_for(test)` on the buckets, the tags in effect and the file's settings. */
  function ExpectationFor(individual: seq<Bucket>, globs: seq<Bucket>, tags: set<string>, full: bool,
                          cr: ConflictResolution, test: string): Expectation
  {
    var m := MergeRules(Empty, Get(individual, test), tags);
    if ContainsData(m) then AsExpectation(m, test, cr)
    else SearchGlobs(globs, 0, m, test, tags, full, cr)
  }

  // ---- What the merge collects ----

  /** A rule applies when all its tags are in effect. */
  predicate Applies(e: Expectation, tags: set<string>) {
    e.tags <= tags
  }

  /** Merging two lists is merging one after the other. */
  lemma {:induction false} MergeRulesAppend(m: MergedData, a: seq<Expectation>, b: seq<Expectation>, tags: set<string>)
    ensures MergeRules(m, a + b, tags) == MergeRules(MergeRules(m, a, tags), b, tags)
    decreases |b|
  {
    if b != [] {
      var n := |b| - 1;
      assert (a + b)[..|a + b| - 1] == a + b[..n];
      assert (a + b)[|a + b| - 1] == b[n];
      MergeRulesAppend(m, a, b[..n], tags);
    } else {
      assert a + b == a;
    }
  }

  /** Rules that do not apply leave the merged data as it is. */
  lemma {:induction false} MergeRulesSkips(m: MergedData, exps: seq<Expectation>, tags: set<string>)
    requires forall e | e in exps :: !Applies(e, tags)
    ensures MergeRules(m, exps, tags) == m
  {
    if exps != [] {
      assert exps[|exps| - 1] in exps;
      MergeRulesSkips(m, exps[..|exps| - 1], tags);
    }
  }

  /**
   * With union rules only, the merge holds the results of the applying rules that are not a
   * default pass, every tag and reason of the applying rules, and a flag when one of them has it.
   */
  lemma {:induction false} UnionMergeCollects(m: MergedData, exps: seq<Expectation>, tags: set<string>)
    requires forall e | e in exps :: e.conflictResolution == Union
    ensures var r := MergeRules(m, exps, tags);
      (forall x :: x in r.results <==>
        x in m.results || exists e | e in exps && Applies(e, tags) && !e.isDefaultPass :: x in e.results)
      && (forall t :: t in r.expTags <==> t in m.expTags || exists e | e in exps && Applies(e, tags) :: t in e.tags)
      && (forall s :: s in r.reasons <==>
        s in m.reasons || exists e | e in exps && Applies(e, tags) && e.reason != [] :: s == e.reason)
      && (r.isSlowTest <==> m.isSlowTest || exists e | e in exps && Applies(e, tags) :: e.isSlowTest)
      && (r.shouldRetryOnFailure <==>
        m.shouldRetryOnFailure || exists e | e in exps && Applies(e, tags) :: e.shouldRetryOnFailure)
  {
    if exps != [] {
      var n := |exps| - 1;
      var init := exps[..n];
      assert exps == init + [exps[n]];
      UnionMergeCollects(m, init, tags);
    }
  }

  /** The last applying rule, when it overrides, decides everything but the reasons. */
  lemma OverrideLastWins(m: MergedData, exps: seq<Expectation>, tags: set<string>, i: nat)
    requires i < |exps| && Applies(exps[i], tags) && exps[i].conflictResolution == Override
    requires forall j | i < j < |exps| :: !Applies(exps[j], tags)
    ensures var r := MergeRules(m, exps, tags);
      r.results == exps[i].results && r.expTags == exps[i].tags
      && r.isSlowTest == exps[i].isSlowTest && r.shouldRetryOnFailure == exps[i].shouldRetryOnFailure
      && r.trailingComments == exps[i].trailingComments
      && (exps[i].reason != [] ==> r.reasons == {exps[i].reason})
  {
    var tail := exps[i + 1..];
    assert exps == exps[..i + 1] + tail;
    assert exps[..i + 1][..i] == exps[..i];
    forall e | e in tail ensures !Applies(e, tags) {
      var j :| 0 <= j < |tail| && tail[j] == e;
      assert e == exps[i + 1 + j];
    }
    MergeRulesAppend(m, exps[..i + 1], tail, tags);
    MergeRulesSkips(MergeRules(m, exps[..i + 1], tags), tail, tags);
  }

  // ---- Which bucket decides ----

  /** `Expectation.__init__` never leaves a rule without results. */
  predicate HasResults(e: Expectation) {
    e.results != {}
  }

  /** Merging this rule makes the merged data carry something. */
  predicate Contributes(e: Expectation, tags: set<string>) {
    Applies(e, tags)
    && (e.conflictResolution == Override || !e.isDefaultPass || e.isSlowTest || e.shouldRetryOnFailure)
  }

  /** The merge carries something exactly when it did already or some rule contributes. */
  lemma {:induction false} MergeRulesData(m: MergedData, exps: seq<Expectation>, tags: set<string>)
    requires forall e | e in exps :: HasResults(e)
    ensures ContainsData(MergeRules(m, exps, tags)) <==> ContainsData(m) || exists e | e in exps :: Contributes(e, tags)
  {
    if exps != [] {
      var n := |exps| - 1;
      var init := exps[..n];
      assert exps == init + [exps[n]];
      MergeRulesData(m, init, tags);
      assert HasResults(exps[n]) by { assert exps[n] in exps; }
      var before := MergeRules(m, init, tags);
      assert ContainsData(MergeRule(before, exps[n], tags)) <==> ContainsData(before) || Contributes(exps[n], tags);
      assert (exists e | e in exps :: Contributes(e, tags))
        <==> (exists e | e in init :: Contributes(e, tags)) || Contributes(exps[n], tags);
    }
  }

  /** The glob bucket covers the test and holds a rule that contributes. */
  predicate Decides(b: Bucket, test: string, tags: set<string>, full: bool) {
    GlobApplies(b.0, test, full) && exists e | e in b.1 :: Contributes(e, tags)
  }

  /** The rules of the buckets `i` to `k - 1` that cover the test, in order. */
  function Consulted(globs: seq<Bucket>, i: nat, k: nat, test: string, full: bool): seq<Expectation>
    requires k <= |globs|
    decreases k - i
  {
    if i >= k then []
    else (if GlobApplies(globs[i].0, test, full) then globs[i].1 else []) + Consulted(globs, i + 1, k, test, full)
  }

  /** Every rule of every bucket has results. */
  ghost predicate AllHaveResults(d: seq<Bucket>) {
    forall j, e | 0 <= j < |d| && e in d[j].1 :: HasResults(e)
  }

  lemma {:induction false} SearchReachesDecider(globs: seq<Bucket>, i: nat, k: nat, m: MergedData, test: string,
                                                tags: set<string>, full: bool, cr: ConflictResolution)
    requires AllHaveResults(globs) && i <= k < |globs| && !ContainsData(m)
    requires Decides(globs[k], test, tags, full) && forall j | i <= j < k :: !Decides(globs[j], test, tags, full)
    ensures SearchGlobs(globs, i, m, test, tags, full, cr)
      == AsExpectation(MergeRules(m, Consulted(globs, i, k + 1, test, full), tags), test, cr)
    decreases k - i
  {
    var here := if GlobApplies(globs[i].0, test, full) then globs[i].1 else [];
    var m' := if GlobApplies(globs[i].0, test, full) then MergeRules(m, globs[i].1, tags) else m;
    assert m' == MergeRules(m, here, tags);
    MergeRulesData(m, here, tags);
    MergeRulesAppend(m, here, Consulted(globs, i + 1, k + 1, test, full), tags);
    if i < k {
      SearchReachesDecider(globs, i + 1, k, m', test, tags, full, cr);
    }
  }

  lemma {:induction false} SearchFindsNothing(globs: seq<Bucket>, i: nat, m: MergedData, test: string,
                                              tags: set<string>, full: bool, cr: ConflictResolution)
    requires AllHaveResults(globs) && !ContainsData(m)
    requires forall j | i <= j < |globs| :: !Decides(globs[j], test, tags, full)
    ensures SearchGlobs(globs, i, m, test, tags, full, cr) == DefaultExpectation(test)
    decreases |globs| - i
  {
    if i < |globs| {
      if GlobApplies(globs[i].0, test, full) {
        MergeRulesData(m, globs[i].1, tags);
      }
      SearchFindsNothing(globs, i + 1,
        if GlobApplies(globs[i].0, test, full) then MergeRules(m, globs[i].1, tags) else m,
        test, tags, full, cr);
    }
  }

  /** A rule filed under the test itself that contributes decides the lookup; the globs are not consulted. */
  lemma ExactRulesWin(individual: seq<Bucket>, globs: seq<Bucket>, tags: set<string>, full: bool,
                      cr: ConflictResolution, test: string, e: Expectation)
    requires AllHaveResults(individual) && DistinctKeys(individual)
    requires e in Get(individual, test) && Contributes(e, tags)
    ensures ExpectationFor(individual, globs, tags, full, cr, test)
      == AsExpectation(MergeRules(Empty, Get(individual, test), tags), test, cr)
  {
    var exact := Get(individual, test);
    forall x | x in exact ensures HasResults(x) {
      var i :| 0 <= i < |individual| && individual[i].0 == test by {
        assert test in Keys(individual);
      }
      GetBucket(individual, i);
    }
    MergeRulesData(Empty, exact, tags);
  }

  /**
   * When no rule filed under the test contributes, the first glob bucket that covers the test
   * and holds a contributing rule decides: the result merges the exact rules and the rules of
   * every covering glob up to it. When the globs are longest first, no longer glob decides.
   */
  lemma FirstDecidingGlobWins(individual: seq<Bucket>, globs: seq<Bucket>, tags: set<string>, full: bool,
                              cr: ConflictResolution, test: string, k: nat)
    requires AllHaveResults(individual) && AllHaveResults(globs)
    requires forall e | e in Get(individual, test) :: !Contributes(e, tags)
    requires k < |globs| && Decides(globs[k], test, tags, full)
    requires forall j | 0 <= j < k :: !Decides(globs[j], test, tags, full)
    ensures ExpectationFor(individual, globs, tags, full, cr, test)
      == AsExpectation(MergeRules(Empty, Get(individual, test) + Consulted(globs, 0, k + 1, test, full), tags), test, cr)
    ensures LongestFirst(globs) ==>
      forall j | 0 <= j < |globs| && Decides(globs[j], test, tags, full) :: |globs[j].0| <= |globs[k].0|
  {
    var exact := Get(individual, test);
    ExactHaveResults(individual, test);
    MergeRulesData(Empty, exact, tags);
    SearchReachesDecider(globs, 0, k, MergeRules(Empty, exact, tags), test, tags, full, cr);
    MergeRulesAppend(Empty, exact, Consulted(globs, 0, k + 1, test, full), tags);
    if LongestFirst(globs) {
      forall j | 0 <= j < |globs| && Decides(globs[j], test, tags, full) ensures |globs[j].0| <= |globs[k].0| {
        if j > k {
          assert PatternLength(globs[k]) >= PatternLength(globs[j]);
        }
      }
    }
  }

  /** When neither the test's own rules nor any covering glob contributes, the test is expected to pass. */
  lemma NothingContributesPasses(individual: seq<Bucket>, globs: seq<Bucket>, tags: set<string>, full: bool,
                                 cr: ConflictResolution, test: string)
    requires AllHaveResults(individual) && AllHaveResults(globs)
    requires forall e | e in Get(individual, test) :: !Contributes(e, tags)
    requires forall j | 0 <= j < |globs| :: !Decides(globs[j], test, tags, full)
    ensures ExpectationFor(individual, globs, tags, full, cr, test) == DefaultExpectation(test)
  {
    ExactHaveResults(individual, test);
    MergeRulesData(Empty, Get(individual, test), tags);
    SearchFindsNothing(globs, 0, MergeRules(Empty, Get(individual, test), tags), test, tags, full, cr);
  }

  lemma ExactHaveResults(individual: seq<Bucket>, test: string)
    requires AllHaveResults(individual)
    ensures forall e | e in Get(individual, test) :: HasResults(e)
  {
    GetFromBuckets(individual, test);
  }

  lemma {:induction false} GetFromBuckets(d: seq<Bucket>, k: string)
    ensures forall e | e in Get(d, k) :: exists j | 0 <= j < |d| :: e in d[j].1
  {
    if d != [] && d[0].0 != k {
      GetFromBuckets(d[1..], k);
      assert Get(d, k) == Get(d[1..], k);
      forall e | e in Get(d, k) ensures exists j | 0 <= j < |d| :: e in d[j].1 {
        var j :| 0 <= j < |d[1..]| && e in d[1..][j].1;
        assert d[j + 1] == d[1..][j];
      }
    } else if d != [] {
      assert forall e | e in Get(d, k) :: e in d[0].1;
    }
  }

  // ---- Everything in the answer comes from a rule that applies ----

  /** The rules `expectations_for(test)` may consult: those under the test and under covering globs. */
  ghost function Pool(individual: seq<Bucket>, globs: seq<Bucket>, test: string, full: bool): set<Expectation> {
    (set e | e in Get(individual, test))
    + (set j, e | 0 <= j < |globs| && GlobApplies(globs[j].0, test, full) && e in globs[j].1 :: e)
  }

  /** Every piece of `m` comes from an applying rule of `pool`. */
  ghost predicate DrawnFrom(m: MergedData, pool: set<Expectation>, tags: set<string>) {
    m.expTags <= tags
    && (forall r | r in m.results :: exists e | e in pool && Applies(e, tags) :: r in e.results)
    && (forall s | s in m.reasons :: exists e | e in pool && Applies(e, tags) :: e.reason == s)
    && (m.isSlowTest ==> exists e | e in pool && Applies(e, tags) :: e.isSlowTest)
    && (m.shouldRetryOnFailure ==> exists e | e in pool && Applies(e, tags) :: e.shouldRetryOnFailure)
  }

  /** The answer's tags are in effect, and its results and flags are those of applying rules of `pool`. */
  ghost predicate Justified(x: Expectation, pool: set<Expectation>, tags: set<string>) {
    x.tags <= tags
    && (!x.isDefaultPass ==> forall r | r in x.results :: exists e | e in pool && Applies(e, tags) :: r in e.results)
    && (x.isSlowTest ==> exists e | e in pool && Applies(e, tags) :: e.isSlowTest)
    && (x.shouldRetryOnFailure ==> exists e | e in pool && Applies(e, tags) :: e.shouldRetryOnFailure)
  }

  lemma {:induction false} MergeRulesDrawn(m: MergedData, exps: seq<Expectation>, pool: set<Expectation>, tags: set<string>)
    requires DrawnFrom(m, pool, tags) && forall e | e in exps :: e in pool
    ensures DrawnFrom(MergeRules(m, exps, tags), pool, tags)
  {
    if exps != [] {
      var n := |exps| - 1;
      assert exps[n] in exps;
      MergeRulesDrawn(m, exps[..n], pool, tags);
    }
  }

  lemma {:induction false} SearchJustified(globs: seq<Bucket>, i: nat, m: MergedData, test: string, tags: set<string>,
                                           full: bool, cr: ConflictResolution, pool: set<Expectation>)
    requires DrawnFrom(m, pool, tags)
    requires forall j, e | 0 <= j < |globs| && GlobApplies(globs[j].0, test, full) && e in globs[j].1 :: e in pool
    ensures Justified(SearchGlobs(globs, i, m, test, tags, full, cr), pool, tags)
    decreases |globs| - i
  {
    if i < |globs| {
      if GlobApplies(globs[i].0, test, full) {
        MergeRulesDrawn(m, globs[i].1, pool, tags);
      }
      SearchJustified(globs, i + 1,
        if GlobApplies(globs[i].0, test, full) then MergeRules(m, globs[i].1, tags) else m,
        test, tags, full, cr, pool);
    }
  }

  /**
   * Whatever `expectations_for(test)` answers, its tags are in effect, and each of its results
   * and flags comes from a rule filed under the test or under a glob covering it whose tags are
   * all in effect.
   */
  lemma ExpectationForJustified(individual: seq<Bucket>, globs: seq<Bucket>, tags: set<string>, full: bool,
                                cr: ConflictResolution, test: string)
    ensures Justified(ExpectationFor(individual, globs, tags, full, cr, test), Pool(individual, globs, test, full), tags)
  {
    var pool := Pool(individual, globs, test, full);
    var exact := Get(individual, test);
    assert DrawnFrom(Empty, pool, tags);
    MergeRulesDrawn(Empty, exact, pool, tags);
    SearchJustified(globs, 0, MergeRules(Empty, exact, tags), test, tags, full, cr, pool);
  }
}

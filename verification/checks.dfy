/**
 * The checks `TestExpectations` runs over its rule buckets (typ/expectations_parser.py): rules
 * under one pattern whose tags do not tell them apart, rules no test name reaches, and condition
 * tags the file never declared.
 */
module Checks {
  import opened Wrappers
  import opened Text
  import opened Expectations
  import opened Buckets
  import opened Lookup

  /**
   * What the store's methods raise instead of returning. `UnknownTagsError` is the `ValueError` of
   * `validate_condition_tags`, carrying the tags its message names (`UnknownTagsMessage` renders it).
   */
  datatype Raised = IndexError | RuntimeError | UnknownTagsError(unknown: set<string>)

  // ---- tag_sets_conflict and _default_tags_conflict ----

  /**
   * `tag_sets_conflict`: two rules' tags conflict unless some declared tag set holds a tag of
   * each that `tagsConflict` tells apart.
   */
  predicate TagSetsConflict(tagSets: set<set<string>>, s1: set<string>, s2: set<string>,
                            tagsConflict: (string, string) -> bool) {
    forall ts {:trigger TellsApart(ts, s1, s2, tagsConflict)} | ts in tagSets :: !TellsApart(ts, s1, s2, tagsConflict)
  }

  /** The declared set `ts` holds a tag of `s1` and a tag of `s2` that `tagsConflict` tells apart. */
  predicate TellsApart(ts: set<string>, s1: set<string>, s2: set<string>, tagsConflict: (string, string) -> bool) {
    exists t1, t2 | t1 in s1 && t2 in s2 && t1 in ts && t2 in ts :: tagsConflict(t1, t2)
  }

  /** `_default_tags_conflict`: two tags of one declared set tell rules apart when they differ. */
  function DefaultTagsConflict(t1: string, t2: string): bool {
    t1 != t2
  }

  /** No declared tag set holds two tags of `s`, as for the tags of a parsed rule. */
  ghost predicate OnePerSet(tagSets: set<set<string>>, s: set<string>) {
    forall ts, t, u | ts in tagSets && t in s && u in s && t in ts && u in ts :: t == u
  }

  /**
   * With the default test, two rules conflict exactly when no declared set gives them two
   * different tags: in every set, one of them has no tag or both have the same one.
   */
  lemma DefaultConflictIff(tagSets: set<set<string>>, s1: set<string>, s2: set<string>)
    requires OnePerSet(tagSets, s1) && OnePerSet(tagSets, s2)
    ensures TagSetsConflict(tagSets, s1, s2, DefaultTagsConflict)
      <==> forall ts | ts in tagSets :: s1 * ts == {} || s2 * ts == {} || s1 * ts == s2 * ts
  {
    if TagSetsConflict(tagSets, s1, s2, DefaultTagsConflict) {
      forall ts | ts in tagSets ensures s1 * ts == {} || s2 * ts == {} || s1 * ts == s2 * ts {
        if s1 * ts != {} && s2 * ts != {} {
          var t1 :| t1 in s1 * ts;
          var t2 :| t2 in s2 * ts;
          assert !TellsApart(ts, s1, s2, DefaultTagsConflict);
          assert s1 * ts == {t1};
          assert s2 * ts == {t2};
        }
      }
    } else if forall ts | ts in tagSets :: s1 * ts == {} || s2 * ts == {} || s1 * ts == s2 * ts {
      forall ts | ts in tagSets ensures !TellsApart(ts, s1, s2, DefaultTagsConflict) {
        forall t1, t2 | t1 in s1 && t2 in s2 && t1 in ts && t2 in ts ensures !DefaultTagsConflict(t1, t2) {
          assert t1 in s1 * ts && t2 in s2 * ts;
          assert t2 in s1 * ts;
        }
      }
    }
  }

  // ---- check_test_expectations_patterns_for_conflicts ----

  /** `'%d' % n`. */
  function DecimalText(n: int): string {
    if n < 0 then "-" + NatToString(-n) else NatToString(n)
  }

  /** The line reporting one conflicting pair. */
  function PairLine(e1: Expectation, e2: Expectation): string {
    "  line " + DecimalText(e1.lineno) + " conflicts with line " + DecimalText(e2.lineno) + "\n"
  }

  /** The line that opens the report on one pattern. */
  function ConflictHeader(pattern: string, fileName: string): string {
    "\nFound conflicts for pattern " + pattern + (if fileName != "" then " in " + fileName else "") + ":\n"
  }

  predicate PairConflicts(tagSets: set<set<string>>, exps: seq<Expectation>, i: nat, j: nat,
                          tagsConflict: (string, string) -> bool)
    requires i < |exps| && j < |exps|
  {
    TagSetsConflict(tagSets, exps[i].tags, exps[j].tags, tagsConflict)
  }

  /** The lines for the pairs `(i, k)` with `i < k < j`, in order. */
  function RowLines(tagSets: set<set<string>>, exps: seq<Expectation>, i: nat, j: nat,
                    tagsConflict: (string, string) -> bool): string
    requires i < |exps| && j <= |exps|
  {
    if j <= i + 1 then ""
    else RowLines(tagSets, exps, i, j - 1, tagsConflict)
         + (if PairConflicts(tagSets, exps, i, j - 1, tagsConflict) then PairLine(exps[i], exps[j - 1]) else "")
  }

  /** The lines for the pairs `itertools.combinations` yields whose first index is below `i`. */
  function PairLines(tagSets: set<set<string>>, exps: seq<Expectation>, i: nat,
                     tagsConflict: (string, string) -> bool): string
    requires i <= |exps|
  {
    if i == 0 then ""
    else PairLines(tagSets, exps, i - 1, tagsConflict) + RowLines(tagSets, exps, i - 1, |exps|, tagsConflict)
  }

  lemma PairLinesNext(tagSets: set<set<string>>, exps: seq<Expectation>, i: nat, tagsConflict: (string, string) -> bool)
    requires i < |exps|
    ensures PairLines(tagSets, exps, i + 1, tagsConflict)
      == PairLines(tagSets, exps, i, tagsConflict) + RowLines(tagSets, exps, i, |exps|, tagsConflict)
  {
  }

  /** The report on one pattern: nothing, or its header and one line per conflicting pair. */
  function PatternReport(tagSets: set<set<string>>, pattern: string, exps: seq<Expectation>, fileName: string,
                         tagsConflict: (string, string) -> bool): string
  {
    var lines := PairLines(tagSets, exps, |exps|, tagsConflict);
    if lines == "" then "" else ConflictHeader(pattern, fileName) + lines
  }

  /** The reports on the patterns of `d`, in order. */
  function ConflictReport(tagSets: set<set<string>>, d: seq<Bucket>, fileName: string,
                          tagsConflict: (string, string) -> bool): string
  {
    if d == [] then ""
    else
      var n := |d| - 1;
      ConflictReport(tagSets, d[..n], fileName, tagsConflict) + PatternReport(tagSets, d[n].0, d[n].1, fileName, tagsConflict)
  }

  /** Two rules of `exps` conflict. */
  ghost predicate HasConflict(tagSets: set<set<string>>, exps: seq<Expectation>, tagsConflict: (string, string) -> bool) {
    exists i, j | 0 <= i < j < |exps| :: TagSetsConflict(tagSets, exps[i].tags, exps[j].tags, tagsConflict)
  }

  lemma {:induction false} RowLinesEmpty(tagSets: set<set<string>>, exps: seq<Expectation>, i: nat, j: nat,
                                         tagsConflict: (string, string) -> bool)
    requires i < |exps| && j <= |exps|
    ensures RowLines(tagSets, exps, i, j, tagsConflict) == ""
      <==> forall k | i < k < j :: !PairConflicts(tagSets, exps, i, k, tagsConflict)
  {
    if j > i + 1 {
      RowLinesEmpty(tagSets, exps, i, j - 1, tagsConflict);
    }
  }

  /** Rule `i` conflicts with no rule after it. */
  ghost predicate RowClear(tagSets: set<set<string>>, exps: seq<Expectation>, i: nat,
                           tagsConflict: (string, string) -> bool)
    requires i < |exps|
  {
    forall k | i < k < |exps| :: !PairConflicts(tagSets, exps, i, k, tagsConflict)
  }

  lemma {:induction false} PairLinesEmpty(tagSets: set<set<string>>, exps: seq<Expectation>, i: nat,
                                          tagsConflict: (string, string) -> bool)
    requires i <= |exps|
    ensures PairLines(tagSets, exps, i, tagsConflict) == "" <==> forall a | 0 <= a < i :: RowClear(tagSets, exps, a, tagsConflict)
  {
    if i > 0 {
      PairLinesEmpty(tagSets, exps, i - 1, tagsConflict);
      RowLinesEmpty(tagSets, exps, i - 1, |exps|, tagsConflict);
      var p := PairLines(tagSets, exps, i - 1, tagsConflict);
      var r := RowLines(tagSets, exps, i - 1, |exps|, tagsConflict);
      assert |p + r| == |p| + |r|;
      assert r == "" <==> RowClear(tagSets, exps, i - 1, tagsConflict);
    }
  }

  lemma PatternReportEmpty(tagSets: set<set<string>>, pattern: string, exps: seq<Expectation>, fileName: string,
                           tagsConflict: (string, string) -> bool)
    ensures PatternReport(tagSets, pattern, exps, fileName, tagsConflict) == "" <==> !HasConflict(tagSets, exps, tagsConflict)
  {
    PairLinesEmpty(tagSets, exps, |exps|, tagsConflict);
    if HasConflict(tagSets, exps, tagsConflict) {
      var i, j :| 0 <= i < j < |exps| && TagSetsConflict(tagSets, exps[i].tags, exps[j].tags, tagsConflict);
      assert PairConflicts(tagSets, exps, i, j, tagsConflict);
      assert !RowClear(tagSets, exps, i, tagsConflict);
    } else {
      forall a | 0 <= a < |exps| ensures RowClear(tagSets, exps, a, tagsConflict) {
      }
    }
  }

  /** The report says nothing exactly when no two rules filed under one pattern conflict. */
  lemma {:induction false} ConflictReportEmpty(tagSets: set<set<string>>, d: seq<Bucket>, fileName: string,
                                               tagsConflict: (string, string) -> bool)
    ensures ConflictReport(tagSets, d, fileName, tagsConflict) == ""
      <==> forall j | 0 <= j < |d| :: !HasConflict(tagSets, d[j].1, tagsConflict)
  {
    if d != [] {
      var n := |d| - 1;
      ConflictReportEmpty(tagSets, d[..n], fileName, tagsConflict);
      PatternReportEmpty(tagSets, d[n].0, d[n].1, fileName, tagsConflict);
      var p := ConflictReport(tagSets, d[..n], fileName, tagsConflict);
      var q := PatternReport(tagSets, d[n].0, d[n].1, fileName, tagsConflict);
      assert |p + q| == |p| + |q|;
      assert forall j | 0 <= j < n :: d[..n][j] == d[j];
    }
  }

  // ---- check_for_broken_expectations ----

  /** The rules filed under a test name that is not among `names`, bucket by bucket. */
  function BrokenIndividual(d: seq<Bucket>, names: set<string>): seq<Expectation> {
    if d == [] then []
    else
      var n := |d| - 1;
      BrokenIndividual(d[..n], names) + (if d[n].0 !in names then d[n].1 else [])
  }

  /** The paths of the trie `_check_for_broken_glob_expectations_simple` builds: each name and a NUL, cut anywhere. */
  function TriePaths(names: set<string>): set<string> {
    set n, m | n in names && 1 <= m <= |n| + 1 :: (n + "\0")[..m]
  }

  /** What the trie walk follows: the pattern, less a final star. */
  function WalkedPrefix(pattern: string): string {
    if pattern != [] && pattern[|pattern| - 1] == '*' then pattern[..|pattern| - 1] else pattern
  }

  /** A glob no test name reaches: the full matcher takes none, or the trie walk falls off. */
  predicate GlobBroken(pattern: string, names: set<string>, full: bool) {
    if full then forall n | n in names :: !GlobApplies(pattern, n, true)
    else WalkedPrefix(pattern) != [] && WalkedPrefix(pattern) !in TriePaths(names)
  }

  /** The rules filed under broken globs, bucket by bucket. */
  function BrokenGlobs(d: seq<Bucket>, names: set<string>, full: bool): seq<Expectation> {
    if d == [] then []
    else
      var n := |d| - 1;
      BrokenGlobs(d[..n], names, full) + (if GlobBroken(d[n].0, names, full) then d[n].1 else [])
  }

  /**
   * `check_for_broken_expectations(names)`: the broken individual rules, then the broken glob
   * rules. Building the trie raises `IndexError` on an empty name.
   */
  function BrokenExpectations(individual: seq<Bucket>, globs: seq<Bucket>, names: set<string>, full: bool)
    : (r: Result<seq<Expectation>, Raised>)
    ensures r.Err? <==> !full && "" in names
  {
    if !full && "" in names then Err(IndexError)
    else Ok(BrokenIndividual(individual, names) + BrokenGlobs(globs, names, full))
  }

  /** A rule is reported as a broken individual rule exactly when it is filed under a name not listed. */
  lemma {:induction false} BrokenIndividualRules(d: seq<Bucket>, names: set<string>)
    ensures forall e :: (e in BrokenIndividual(d, names) <==> exists j | 0 <= j < |d| :: d[j].0 !in names && e in d[j].1)
  {
    if d != [] {
      var n := |d| - 1;
      BrokenIndividualRules(d[..n], names);
      assert forall j | 0 <= j < n :: d[..n][j] == d[j];
    }
  }

  /** A rule is reported as a broken glob rule exactly when it is filed under a broken glob. */
  lemma {:induction false} BrokenGlobRules(d: seq<Bucket>, names: set<string>, full: bool)
    ensures forall e :: (e in BrokenGlobs(d, names, full)
      <==> exists j | 0 <= j < |d| :: GlobBroken(d[j].0, names, full) && e in d[j].1)
  {
    if d != [] {
      var n := |d| - 1;
      BrokenGlobRules(d[..n], names, full);
      assert forall j | 0 <= j < n :: d[..n][j] == d[j];
    }
  }

  /**
   * The trie walk agrees with the lookup: a limited-mode glob longer than `*`, without NUL
   * characters, is broken exactly when no listed name starts with its prefix.
   */
  lemma TrieBrokenIffUncovered(pattern: string, names: set<string>)
    requires |pattern| >= 2 && pattern[|pattern| - 1] == '*'
    requires forall i | 0 <= i < |pattern| :: pattern[i] != '\0'
    ensures GlobBroken(pattern, names, false) <==> forall n | n in names :: !GlobApplies(pattern, n, false)
  {
    var q := pattern[..|pattern| - 1];
    assert WalkedPrefix(pattern) == q && GlobPrefix(pattern) == q;
    if q in TriePaths(names) {
      var n, m :| n in names && 1 <= m <= |n| + 1 && (n + "\0")[..m] == q;
      assert q[m - 1] != '\0' && (n + "\0")[m - 1] == q[m - 1];
      assert n[..m] == q;
      assert GlobApplies(pattern, n, false);
    }
    forall n | n in names && GlobApplies(pattern, n, false) ensures q in TriePaths(names) {
      assert (n + "\0")[..|q|] == q;
    }
  }

  // ---- validate_condition_tags ----

  /** Every tag of the declared sets. */
  function DeclaredTags(tagSets: set<set<string>>): set<string> {
    set ts, t | ts in tagSets && t in ts :: t
  }

  /** The lower-cased tags that no declared set holds and that are not ignored; none when nothing is declared. */
  function UnknownTags(tagSets: set<set<string>>, ignored: set<string>, tags: seq<string>): (r: set<string>)
    ensures tagSets == {} ==> r == {}
    ensures forall t | t in r :: t !in DeclaredTags(tagSets) && t !in ignored
    ensures tagSets != {} ==>
      forall t | t in tags :: Lower(t) in r || Lower(t) in DeclaredTags(tagSets) || Lower(t) in ignored
    ensures forall t | t in r :: exists x | x in tags :: Lower(x) == t
  {
    if tagSets == {} then {}
    else (set t | t in tags :: Lower(t)) - (DeclaredTags(tagSets) + ignored)
  }

  /** `_pluralize_unknown`: the words the message changes with the number of unknown tags. */
  function Pluralize(missing: seq<string>): (string, string, string)
    requires missing != []
  {
    if |missing| > 1 then
      ("s " + Join(missing[..|missing| - 1], ", ") + " and " + missing[|missing| - 1] + " are", "have", "s are")
    else (" " + missing[0] + " is", "has", " is")
  }

  /** The message `validate_condition_tags` raises or logs. */
  function UnknownTagsMessage(unknown: set<string>): string
    requires unknown != {}
  {
    var p := Pluralize(SortedSet(unknown));
    "Tag" + p.0 + " not declared in the expectations file and " + p.1
    + " not been explicitly ignored by the test. There may have been a typo in the expectations file."
    + " Please make sure the aforementioned tag" + p.2 + " declared at the top of the expectations file."
  }
}

/**
 * How `parse_tagged_list` of `TestExpectations` (typ/expectations_parser.py) files the rules of
 * a parsed file: rules for single tests under their test name, glob rules sorted by decreasing
 * pattern length and then under their pattern.
 */
module Filing {
  import opened Text
  import opened Expectations
  import opened Ordering
  import opened Buckets
  import opened Lookup

  /** The key glob rules are sorted by: the length of their pattern. */
  function TestLength(e: Expectation): nat {
    |e.test|
  }

  /** The rules that are not globs, in order. */
  function Individual(exps: seq<Expectation>): (r: seq<Expectation>)
    ensures forall e | e in r :: e in exps && !e.isGlob
  {
    if exps == [] then []
    else
      var last := exps[|exps| - 1];
      Individual(exps[..|exps| - 1]) + (if !last.isGlob then [last] else [])
  }

  /** The glob rules, in order. */
  function Globs(exps: seq<Expectation>): (r: seq<Expectation>)
    ensures forall e | e in r :: e in exps && e.isGlob
  {
    if exps == [] then []
    else
      var last := exps[|exps| - 1];
      Globs(exps[..|exps| - 1]) + (if last.isGlob then [last] else [])
  }

  /** Every rule is filed as an individual rule or as a glob rule, exactly once. */
  lemma {:induction false} SplitKeepsEveryRule(exps: seq<Expectation>)
    ensures multiset(Individual(exps)) + multiset(Globs(exps)) == multiset(exps)
    decreases |exps|
  {
    if exps != [] {
      var init := exps[..|exps| - 1];
      var last := exps[|exps| - 1];
      SplitKeepsEveryRule(init);
      var ind, glob := if !last.isGlob then [last] else [], if last.isGlob then [last] else [];
      assert Individual(exps) == Individual(init) + ind;
      assert Globs(exps) == Globs(init) + glob;
      assert multiset(ind) + multiset(glob) == multiset{last};
      LastSplit(exps);
    }
  }

  lemma LastSplit<T>(xs: seq<T>)
    requires xs != []
    ensures multiset(xs) == multiset(xs[..|xs| - 1]) + multiset{xs[|xs| - 1]}
  {
    assert xs == xs[..|xs| - 1] + [xs[|xs| - 1]];
  }

  /** One more rule goes to the individual rules or to the globs. */
  lemma SplitSnoc(xs: seq<Expectation>, e: Expectation)
    ensures Individual(xs + [e]) == Individual(xs) + (if !e.isGlob then [e] else [])
    ensures Globs(xs + [e]) == Globs(xs) + (if e.isGlob then [e] else [])
  {
    assert (xs + [e])[..|xs|] == xs;
  }

  /**
   * Glob filing as `parse_tagged_list` writes it: the new glob rules, longest pattern first,
   * each appended under its pattern; a pattern not seen before goes after all the others.
   */
  function FileGlobsAsWritten(globs: seq<Bucket>, exps: seq<Expectation>): seq<Bucket> {
    AddRules(globs, SortByKey(exps, TestLength))
  }

  /** The same filing followed by the longest-first re-sort that `merge_test_expectations` does. */
  function FileGlobs(globs: seq<Bucket>, exps: seq<Expectation>): seq<Bucket> {
    SortByKey(FileGlobsAsWritten(globs, exps), PatternLength)
  }

  lemma {:induction false} RulesForCons(x: Expectation, xs: seq<Expectation>, k: string)
    ensures RulesFor([x] + xs, k) == (if x.test == k then [x] else []) + RulesFor(xs, k)
    decreases |xs|
  {
    var head := if x.test == k then [x] else [];
    if xs == [] {
      assert [x] + xs == [x] && [x][..0] == [];
    } else {
      var n := |xs| - 1;
      var ys := [x] + xs;
      assert ys[..|ys| - 1] == [x] + xs[..n] && ys[|ys| - 1] == xs[n];
      RulesForCons(x, xs[..n], k);
      var tail := if xs[n].test == k then [xs[n]] else [];
      assert RulesFor(ys, k) == RulesFor([x] + xs[..n], k) + tail;
      assert RulesFor(xs, k) == RulesFor(xs[..n], k) + tail;
      AppendAssociative(head, RulesFor(xs[..n], k), tail);
    }
  }

  lemma AppendAssociative(a: seq<Expectation>, b: seq<Expectation>, c: seq<Expectation>)
    ensures (a + b) + c == a + (b + c)
  {
  }

  /** The rules for `k` all have the key `|k|`. */
  lemma {:induction false} RulesForWithKey(xs: seq<Expectation>, k: string)
    ensures RulesFor(WithKey(xs, TestLength, |k|), k) == RulesFor(xs, k)
    decreases |xs|
  {
    if xs != [] {
      var x := xs[0];
      var rest := WithKey(xs[1..], TestLength, |k|);
      assert xs == [x] + xs[1..];
      RulesForWithKey(xs[1..], k);
      RulesForCons(x, xs[1..], k);
      if TestLength(x) == |k| {
        assert WithKey(xs, TestLength, |k|) == [x] + rest;
        RulesForCons(x, rest, k);
      } else {
        assert x.test != k;
        assert WithKey(xs, TestLength, |k|) == rest;
      }
    }
  }

  /** The sort keeps the rules of each pattern in file order. */
  lemma RulesForSorted(xs: seq<Expectation>, k: string)
    ensures RulesFor(SortByKey(xs, TestLength), k) == RulesFor(xs, k)
  {
    RulesForWithKey(SortByKey(xs, TestLength), k);
    SortByKeyStable(xs, TestLength, |k|);
    RulesForWithKey(xs, k);
  }

  /**
   * The corrected filing keeps the patterns distinct and longest first, and files each glob
   * rule under its pattern after the rules already there, in file order.
   */
  lemma FileGlobsKeeps(globs: seq<Bucket>, exps: seq<Expectation>, k: string)
    requires DistinctKeys(globs)
    ensures var r := FileGlobs(globs, exps);
      DistinctKeys(r) && LongestFirst(r) && Keys(r) == Keys(globs) + (set e | e in exps :: e.test)
      && Get(r, k) == Get(globs, k) + RulesFor(exps, k)
  {
    var sorted := SortByKey(exps, TestLength);
    var filed := AddRules(globs, sorted);
    AddRulesDistinct(globs, sorted);
    AddRulesGet(globs, sorted, k);
    SortBucketsKeeps(filed, k);
    SortedBucketsLongestFirst(filed);
    RulesForSorted(exps, k);
    assert forall e :: e in sorted <==> e in exps by {
      forall e ensures e in sorted <==> e in exps {
        assert e in sorted <==> e in multiset(sorted);
      }
    }
  }

  /** Filing a new pattern that is no longer than any there keeps the buckets longest first. */
  lemma {:induction false} ExtendLongestFirst(d: seq<Bucket>, k: string, exps: seq<Expectation>)
    requires LongestFirst(d) && forall i | 0 <= i < |d| :: |d[i].0| >= |k|
    ensures LongestFirst(Extend(d, k, exps))
    decreases |d|
  {
    if d != [] {
      var r := Extend(d, k, exps);
      if d[0].0 == k {
        assert forall i | 0 <= i < |d| :: r[i].0 == d[i].0;
      } else {
        assert Descending(d[1..], PatternLength);
        ExtendLongestFirst(d[1..], k, exps);
        HeadBoundsKeys(d);
        KeysAtMost(Extend(d[1..], k, exps), |d[0].0|);
        ConsDescending(d[0], Extend(d[1..], k, exps), PatternLength);
      }
    }
  }

  lemma HeadBoundsKeys(d: seq<Bucket>)
    requires LongestFirst(d) && d != []
    ensures forall key | key in Keys(d[1..]) :: |key| <= |d[0].0|
  {
    forall key | key in Keys(d[1..]) ensures |key| <= |d[0].0| {
      var j :| 0 <= j < |d[1..]| && d[1..][j].0 == key;
      assert PatternLength(d[0]) >= PatternLength(d[j + 1]);
    }
  }

  lemma KeysAtMost(d: seq<Bucket>, b: nat)
    requires forall key | key in Keys(d) :: |key| <= b
    ensures AtMost(d, PatternLength, b)
  {
    forall i | 0 <= i < |d| ensures PatternLength(d[i]) <= b {
      assert d[i].0 in Keys(d);
    }
  }

  /** Filing rules sorted longest first into no buckets yields buckets longest first. */
  lemma {:induction false} AddSortedRulesLongestFirst(xs: seq<Expectation>)
    requires Descending(xs, TestLength)
    ensures LongestFirst(AddRules([], xs))
  {
    if xs != [] {
      var n := |xs| - 1;
      var d := AddRules([], xs[..n]);
      assert Descending(xs[..n], TestLength);
      AddSortedRulesLongestFirst(xs[..n]);
      forall i | 0 <= i < |d| ensures |d[i].0| >= |xs[n].test| {
        assert d[i].0 in Keys(d);
        var e :| e in xs[..n] && e.test == d[i].0;
        var j :| 0 <= j < n && xs[..n][j] == e;
        assert TestLength(xs[j]) >= TestLength(xs[n]);
      }
      ExtendLongestFirst(d, xs[n].test, [xs[n]]);
    }
  }

  /** On the first file read, the re-sort changes nothing: the two filings agree. */
  lemma FirstFileFilingsAgree(exps: seq<Expectation>)
    ensures FileGlobs([], exps) == FileGlobsAsWritten([], exps)
  {
    var sorted := SortByKey(exps, TestLength);
    SortByKeyDescending(exps, TestLength);
    AddSortedRulesLongestFirst(sorted);
    SortDescendingIsIdentity(AddRules([], sorted), PatternLength);
  }

  lemma {:induction false} FileOneRule(d: seq<Bucket>, r: Expectation)
    ensures FileGlobsAsWritten(d, [r]) == Extend(d, r.test, [r])
  {
    assert [r][1..] == [] && [r][..0] == [];
    assert SortByKey([r], TestLength) == [r];
    assert AddRules(d, [r]) == Extend(AddRules(d, []), r.test, [r]);
  }

  /** Two single-rule files, the second with a different pattern, filed as written. */
  lemma FiledTwiceAsWritten(r1: Expectation, r2: Expectation)
    requires r1.test != r2.test
    ensures FileGlobsAsWritten(FileGlobsAsWritten([], [r1]), [r2]) == [(r1.test, [r1]), (r2.test, [r2])]
  {
    FileOneRule([], r1);
    var first := [(r1.test, [r1])];
    FileOneRule(first, r2);
    assert Extend(first, r2.test, [r2]) == [first[0]] + Extend([], r2.test, [r2]);
  }

  /** The same two files filed with the re-sort, the second pattern being the longer. */
  lemma FiledTwice(r1: Expectation, r2: Expectation)
    requires |r1.test| < |r2.test|
    ensures FileGlobs(FileGlobs([], [r1]), [r2]) == [(r2.test, [r2]), (r1.test, [r1])]
  {
    FileOneRule([], r1);
    var first := [(r1.test, [r1])];
    assert [first[0]][1..] == [];
    assert FileGlobs([], [r1]) == first;
    FiledTwiceAsWritten(r1, r2);
    var both := [(r1.test, [r1]), (r2.test, [r2])];
    assert both[1..] == [(r2.test, [r2])] && both[1..][1..] == [];
    assert SortByKey(both[1..], PatternLength) == [(r2.test, [r2])];
  }

  /** A glob bucket first in line that covers the test and holds one contributing rule decides the lookup. */
  lemma FirstBucketDecides(globs: seq<Bucket>, r: Expectation, test: string)
    requires globs != [] && globs[0] == (r.test, [r]) && GlobApplies(r.test, test, false)
    requires r.tags == {} && r.conflictResolution == Union && !r.isDefaultPass && r.results != {}
    ensures ExpectationFor([], globs, {}, false, Union, test).results == r.results
  {
    assert [r][..0] == [];
    assert MergeRules(Empty, [r], {}).results == r.results;
  }

  /**
   * Reading a second file as written: when the first file has a rule for a glob (`a*`) and the
   * second one for a longer glob (`ab*`) and both cover a test (`abc`), the globs are no longer
   * longest first and the test gets the results of the shorter glob, though the longer one is
   * the more specific; the corrected filing gives it those of the longer glob.
   */
  lemma SecondFileAsWrittenMisordersGlobs(r1: Expectation, r2: Expectation, test: string)
    requires |r1.test| < |r2.test| && GlobApplies(r1.test, test, false) && GlobApplies(r2.test, test, false)
    requires r1.tags == {} && r1.conflictResolution == Union && !r1.isDefaultPass && r1.results != {}
    requires r2.tags == {} && r2.conflictResolution == Union && !r2.isDefaultPass && r2.results != {}
    ensures var asWritten := FileGlobsAsWritten(FileGlobsAsWritten([], [r1]), [r2]);
      !LongestFirst(asWritten) && ExpectationFor([], asWritten, {}, false, Union, test).results == r1.results
    ensures ExpectationFor([], FileGlobs(FileGlobs([], [r1]), [r2]), {}, false, Union, test).results == r2.results
  {
    FiledTwiceAsWritten(r1, r2);
    var asWritten := [(r1.test, [r1]), (r2.test, [r2])];
    assert PatternLength(asWritten[0]) < PatternLength(asWritten[1]);
    FirstBucketDecides(asWritten, r1, test);
    FiledTwice(r1, r2);
    FirstBucketDecides([(r2.test, [r2]), (r1.test, [r1])], r2, test);
  }
}

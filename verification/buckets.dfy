/**
 * The ordered dictionaries `TestExpectations` keeps (typ/expectations_parser.py): each test
 * name or glob pattern, in order of first insertion, with the list of rules filed under it.
 */
module Buckets {
  import opened Expectations
  import opened Ordering

  /** A pattern and its rules. */
  type Bucket = (string, seq<Expectation>)

  ghost predicate DistinctKeys(d: seq<Bucket>) {
    forall i, j | 0 <= i < j < |d| :: d[i].0 != d[j].0
  }

  function Keys(d: seq<Bucket>): set<string> {
    set i | 0 <= i < |d| :: d[i].0
  }

  lemma KeysCons(b: Bucket, d: seq<Bucket>)
    ensures Keys([b] + d) == {b.0} + Keys(d)
  {
    var r := [b] + d;
    assert r[0] == b;
    forall k | k in Keys(d) ensures k in Keys(r) {
      var i :| 0 <= i < |d| && d[i].0 == k;
      assert r[i + 1] == d[i];
    }
  }

  /** `d.get(k, [])`. */
  function Get(d: seq<Bucket>, k: string): (r: seq<Expectation>)
    ensures k !in Keys(d) ==> r == []
  {
    if d == [] then []
    else if d[0].0 == k then d[0].1
    else
      assert d == [d[0]] + d[1..];
      KeysCons(d[0], d[1..]);
      Get(d[1..], k)
  }

  /** With distinct keys, a bucket's list is what `Get` finds under its pattern. */
  lemma {:induction false} GetBucket(d: seq<Bucket>, i: nat)
    requires DistinctKeys(d) && i < |d|
    ensures Get(d, d[i].0) == d[i].1
  {
    if i > 0 {
      GetBucket(d[1..], i - 1);
    }
  }

  /**
   * `d.setdefault(k, []).extend(exps)`: `exps` after the rules already under `k`; a new
   * pattern goes last and the others keep their place.
   */
  function Extend(d: seq<Bucket>, k: string, exps: seq<Expectation>): (r: seq<Bucket>)
    ensures Keys(r) == Keys(d) + {k}
  {
    if d == [] then
      assert [(k, exps)][0].0 == k;
      [(k, exps)]
    else
      KeysCons(d[0], d[1..]);
      KeysCons((k, d[0].1 + exps), d[1..]);
      KeysCons(d[0], Extend(d[1..], k, exps));
      if d[0].0 == k then [(k, d[0].1 + exps)] + d[1..]
      else [d[0]] + Extend(d[1..], k, exps)
  }

  lemma {:induction false} ExtendGet(d: seq<Bucket>, k: string, exps: seq<Expectation>, key: string)
    ensures Get(Extend(d, k, exps), key) == if key == k then Get(d, k) + exps else Get(d, key)
  {
    if d != [] && d[0].0 != k {
      ExtendGet(d[1..], k, exps, key);
    }
  }

  lemma {:induction false} ExtendDistinct(d: seq<Bucket>, k: string, exps: seq<Expectation>)
    requires DistinctKeys(d)
    ensures DistinctKeys(Extend(d, k, exps))
  {
    if d != [] {
      assert d == [d[0]] + d[1..];
      KeysCons(d[0], d[1..]);
      if d[0].0 == k {
        DistinctCons((k, d[0].1 + exps), d[1..]);
      } else {
        ExtendDistinct(d[1..], k, exps);
        DistinctCons(d[0], Extend(d[1..], k, exps));
      }
    }
  }

  /** The rules of `exps` for test `k`, in order. */
  function RulesFor(exps: seq<Expectation>, k: string): seq<Expectation> {
    if exps == [] then []
    else RulesFor(exps[..|exps| - 1], k) + (if exps[|exps| - 1].test == k then [exps[|exps| - 1]] else [])
  }

  /** Each rule of `exps`, in order, appended under its test: `setdefault(exp.test, []).append(exp)`. */
  function AddRules(d: seq<Bucket>, exps: seq<Expectation>): (r: seq<Bucket>)
    ensures Keys(r) == Keys(d) + set e | e in exps :: e.test
  {
    if exps == [] then d
    else
      var last := exps[|exps| - 1];
      assert exps == exps[..|exps| - 1] + [last];
      Extend(AddRules(d, exps[..|exps| - 1]), last.test, [last])
  }

  /** Filing one more rule extends its test's bucket. */
  lemma AddRulesSnoc(d: seq<Bucket>, exps: seq<Expectation>, e: Expectation)
    ensures AddRules(d, exps + [e]) == Extend(AddRules(d, exps), e.test, [e])
  {
    assert (exps + [e])[..|exps|] == exps;
  }

  /** Filing rules adds each under its own test, after the rules already there, in order. */
  lemma {:induction false} AddRulesGet(d: seq<Bucket>, exps: seq<Expectation>, k: string)
    ensures Get(AddRules(d, exps), k) == Get(d, k) + RulesFor(exps, k)
  {
    if exps != [] {
      var last := exps[|exps| - 1];
      AddRulesGet(d, exps[..|exps| - 1], k);
      ExtendGet(AddRules(d, exps[..|exps| - 1]), last.test, [last], k);
    }
  }

  lemma {:induction false} AddRulesDistinct(d: seq<Bucket>, exps: seq<Expectation>)
    requires DistinctKeys(d)
    ensures DistinctKeys(AddRules(d, exps))
  {
    if exps != [] {
      var last := exps[|exps| - 1];
      AddRulesDistinct(d, exps[..|exps| - 1]);
      ExtendDistinct(AddRules(d, exps[..|exps| - 1]), last.test, [last]);
    }
  }

  /** `for k, v in other.items(): d.setdefault(k, []).extend(v)`. */
  function MergeBuckets(d: seq<Bucket>, other: seq<Bucket>): (r: seq<Bucket>)
    ensures Keys(r) == Keys(d) + Keys(other)
  {
    if other == [] then d
    else
      var last := other[|other| - 1];
      assert Keys(other) == Keys(other[..|other| - 1]) + {last.0};
      Extend(MergeBuckets(d, other[..|other| - 1]), last.0, last.1)
  }

  /** Merging puts the other dictionary's rules for a pattern after this one's. */
  lemma {:induction false} MergeBucketsGet(d: seq<Bucket>, other: seq<Bucket>, k: string)
    requires DistinctKeys(other)
    ensures Get(MergeBuckets(d, other), k) == Get(d, k) + Get(other, k)
  {
    if other != [] {
      var n := |other| - 1;
      var init := other[..n];
      var m := MergeBuckets(d, init);
      DistinctInit(other);
      MergeBucketsGet(d, init, k);
      ExtendGet(m, other[n].0, other[n].1, k);
      GetSnoc(init, other[n], k);
      if k == other[n].0 {
        assert Get(init, k) == [];
        assert Get(m, k) == Get(d, k);
      }
    }
  }

  lemma DistinctInit(d: seq<Bucket>)
    requires DistinctKeys(d) && d != []
    ensures var n := |d| - 1;
      d == d[..n] + [d[n]] && DistinctKeys(d[..n]) && d[n].0 !in Keys(d[..n])
  {
    var n := |d| - 1;
    forall i | 0 <= i < n ensures d[..n][i].0 != d[n].0 {
      assert d[..n][i] == d[i];
    }
  }

  lemma {:induction false} GetSnoc(d: seq<Bucket>, b: Bucket, k: string)
    requires b.0 !in Keys(d)
    ensures Get(d + [b], k) == if k == b.0 then b.1 else Get(d, k)
  {
    if d != [] {
      assert (d + [b])[1..] == d[1..] + [b];
      KeysCons(d[0], d[1..]);
      GetSnoc(d[1..], b, k);
    }
  }

  lemma {:induction false} MergeBucketsDistinct(d: seq<Bucket>, other: seq<Bucket>)
    requires DistinctKeys(d)
    ensures DistinctKeys(MergeBuckets(d, other))
  {
    if other != [] {
      var last := other[|other| - 1];
      MergeBucketsDistinct(d, other[..|other| - 1]);
      ExtendDistinct(MergeBuckets(d, other[..|other| - 1]), last.0, last.1);
    }
  }

  /** `dict(d).update(other)`: a pattern of `other` takes `other`'s list, in place or last. */
  function UpdateBuckets(d: seq<Bucket>, other: seq<Bucket>): (r: seq<Bucket>)
    ensures Keys(r) == Keys(d) + Keys(other)
  {
    if other == [] then d
    else
      var last := other[|other| - 1];
      assert Keys(other) == Keys(other[..|other| - 1]) + {last.0};
      Replace(UpdateBuckets(d, other[..|other| - 1]), last.0, last.1)
  }

  /** `d[k] = exps`. */
  function Replace(d: seq<Bucket>, k: string, exps: seq<Expectation>): (r: seq<Bucket>)
    ensures Keys(r) == Keys(d) + {k}
  {
    if d == [] then
      assert [(k, exps)][0].0 == k;
      [(k, exps)]
    else
      KeysCons(d[0], d[1..]);
      KeysCons((k, exps), d[1..]);
      KeysCons(d[0], Replace(d[1..], k, exps));
      if d[0].0 == k then [(k, exps)] + d[1..]
      else [d[0]] + Replace(d[1..], k, exps)
  }

  lemma {:induction false} ReplaceGet(d: seq<Bucket>, k: string, exps: seq<Expectation>, key: string)
    ensures Get(Replace(d, k, exps), key) == if key == k then exps else Get(d, key)
  {
    if d != [] && d[0].0 != k {
      ReplaceGet(d[1..], k, exps, key);
    }
  }

  /** After the update a pattern of `other` has `other`'s rules and every other pattern its own. */
  lemma {:induction false} UpdateBucketsGet(d: seq<Bucket>, other: seq<Bucket>, k: string)
    requires DistinctKeys(other)
    ensures Get(UpdateBuckets(d, other), k) == if k in Keys(other) then Get(other, k) else Get(d, k)
  {
    if other != [] {
      var n := |other| - 1;
      DistinctInit(other);
      UpdateBucketsGet(d, other[..n], k);
      ReplaceGet(UpdateBuckets(d, other[..n]), other[n].0, other[n].1, k);
      GetSnoc(other[..n], other[n], k);
    }
  }

  /** The length of a bucket's pattern, the key glob buckets are sorted by. */
  function PatternLength(b: Bucket): nat {
    |b.0|
  }

  /** Glob buckets, longest pattern first. */
  ghost predicate LongestFirst(d: seq<Bucket>) {
    Descending(d, PatternLength)
  }

  lemma DistinctCons(b: Bucket, d: seq<Bucket>)
    requires DistinctKeys(d) && b.0 !in Keys(d)
    ensures DistinctKeys([b] + d)
  {
    var r := [b] + d;
    forall i, j | 0 <= i < j < |r| ensures r[i].0 != r[j].0 {
      assert r[j] == d[j - 1];
      if i > 0 {
        assert r[i] == d[i - 1];
      }
    }
  }

  lemma {:induction false} InsertBucket(b: Bucket, d: seq<Bucket>, k: string)
    requires DistinctKeys(d) && b.0 !in Keys(d)
    ensures var r := InsertByKey(b, d, PatternLength);
      DistinctKeys(r) && Keys(r) == Keys(d) + {b.0} && Get(r, k) == if k == b.0 then b.1 else Get(d, k)
    decreases |d|
  {
    KeysCons(b, d);
    if d == [] || PatternLength(d[0]) <= PatternLength(b) {
      DistinctCons(b, d);
    } else {
      KeysCons(d[0], d[1..]);
      assert d == [d[0]] + d[1..];
      InsertBucket(b, d[1..], k);
      var rest := InsertByKey(b, d[1..], PatternLength);
      KeysCons(d[0], rest);
      DistinctCons(d[0], rest);
    }
  }

  /** Sorting the buckets keeps the patterns distinct and every pattern's rules. */
  lemma {:induction false} SortBucketsKeeps(d: seq<Bucket>, k: string)
    requires DistinctKeys(d)
    ensures var s := SortByKey(d, PatternLength);
      DistinctKeys(s) && Keys(s) == Keys(d) && Get(s, k) == Get(d, k)
    decreases |d|
  {
    if d != [] {
      KeysCons(d[0], d[1..]);
      assert d == [d[0]] + d[1..];
      SortBucketsKeeps(d[1..], k);
      InsertBucket(d[0], SortByKey(d[1..], PatternLength), k);
    }
  }

  /** Sorted buckets come longest pattern first. */
  lemma SortedBucketsLongestFirst(d: seq<Bucket>)
    ensures LongestFirst(SortByKey(d, PatternLength))
  {
    SortByKeyDescending(d, PatternLength);
  }
}

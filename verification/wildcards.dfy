/**
 * Wildcards in test patterns: when a pattern is a glob, how `\*` escapes are removed when a
 * rule is read and restored when it is written back, and how a pattern matches a test name.
 */
module Wildcards {
  import opened Text
  import opened Wrappers

  /** The star at index `i` of `t` is preceded by a backslash. */
  predicate EscapedAt(t: string, i: int) {
    0 < i < |t| && t[i - 1] == '\\'
  }

  /** Every `*` in `t` is written `\*`. */
  predicate AllStarsEscaped(t: string) {
    forall i | 0 <= i < |t| && t[i] == '*' :: EscapedAt(t, i)
  }

  /**
   * `_determine_if_test_is_glob`: with full wildcard support a pattern is a glob when it has more
   * `*` characters than `\*` sequences; otherwise only a final `*` that is not itself escaped counts.
   */
  function IsGlob(test: string, fullWildcardSupport: bool): bool {
    if fullWildcardSupport then Count(test, "\\*") != Count(test, "*")
    else EndsWith(test, "*") && !EndsWith(test, "\\*")
  }

  /** `\*` becomes `*`. */
  function Unescape(t: string): string {
    Replace(t, "\\*", "*")
  }

  /** `*` becomes `\*`. */
  function Escape(t: string): string {
    Replace(t, "*", "\\*")
  }

  /**
   * `_process_wildcards`: a glob under full wildcard support keeps its escapes; every other
   * pattern has each `\*` turned into a plain `*`.
   */
  function ProcessWildcards(test: string, isGlob: bool, fullWildcardSupport: bool): (r: string)
    ensures !(isGlob && fullWildcardSupport) ==> |r| + Count(test, "\\*") == |test|
  {
    if isGlob && fullWildcardSupport then test
    else
      UnescapeShortens(test);
      Unescape(test)
  }

  /** The pattern written back by `to_string`; `None` is the assertion that fails for a limited glob without a final `*`. */
  function PrintedTest(test: string, isGlob: bool, fullWildcardSupport: bool): (r: Option<string>)
    ensures r.None? <==> isGlob && !fullWildcardSupport && !EndsWith(test, "*")
    ensures r.Some? && isGlob && !fullWildcardSupport ==> EndsWith(r.value, "*")
  {
    if isGlob then
      if fullWildcardSupport then Some(test)
      else if test == [] || test[|test| - 1] != '*' then None
      else Some(Escape(test[..|test| - 1]) + "*")
    else Some(Escape(test))
  }

  /** An unescaped `*` somewhere before the last position, which limited globs forbid. */
  predicate HasMisplacedWildcard(test: string) {
    exists i | 0 <= i < |test| - 1 :: test[i] == '*' && !EscapedAt(test, i)
  }

  /**
   * The wildcard check of `_validate_expectation_structure` when full wildcard support is off:
   * scans every position but the last for a `*` not preceded by a backslash.
   */
  method CheckWildcardPositions(test: string) returns (ok: bool)
    ensures ok <==> !HasMisplacedWildcard(test)
  {
    var i := 0;
    while i < |test| - 1
      invariant 0 <= i <= |test| || (|test| == 0 && i == 0)
      invariant forall j | 0 <= j < i && j < |test| - 1 :: !(test[j] == '*' && !EscapedAt(test, j))
    {
      if test[i] == '*' && (i == 0 || test[i - 1] != '\\') {
        return false;
      }
      i := i + 1;
    }
    return true;
  }

  // ---- Counting escaped and unescaped stars ----

  /** Each `\*` contains a `*`, and the counts agree exactly when every star is escaped. */
  lemma {:induction false} CountEscapedStars(t: string)
    ensures Count(t, "\\*") <= Count(t, "*")
    ensures Count(t, "\\*") == Count(t, "*") <==> AllStarsEscaped(t)
    decreases |t|
  {
    if |t| < 2 {
      if |t| == 1 {
        assert Count(t[1..], "*") == 0;
        assert t[0] == '*' ==> !EscapedAt(t, 0);
      }
    } else {
      CountEscapedStars(t[1..]);
      assert Count(t, "*") == (if t[0] == '*' then 1 else 0) + Count(t[1..], "*") by {
        assert t[..1] == [t[0]];
      }
      if t[..2] == "\\*" {
        CountEscapedStars(t[2..]);
        assert Count(t[1..], "*") == 1 + Count(t[2..], "*") by {
          assert t[1..][..1] == "*";
          assert t[1..][1..] == t[2..];
        }
        assert Count(t, "\\*") == 1 + Count(t[2..], "\\*");
        assert t[0] != '*';
        AllStarsEscapedDrop2(t);
      } else {
        assert Count(t, "\\*") == Count(t[1..], "\\*");
        AllStarsEscapedDrop1(t);
      }
    }
  }

  lemma AllStarsEscapedDrop1(t: string)
    requires |t| >= 2 && t[..2] != "\\*"
    ensures AllStarsEscaped(t) <==> t[0] != '*' && AllStarsEscaped(t[1..])
  {
    assert t[..2] == [t[0], t[1]];
    if AllStarsEscaped(t) {
      assert t[0] != '*' by { assert !EscapedAt(t, 0); }
      forall i | 0 <= i < |t[1..]| && t[1..][i] == '*' ensures EscapedAt(t[1..], i) {
        assert EscapedAt(t, i + 1);
      }
    }
    if t[0] != '*' && AllStarsEscaped(t[1..]) {
      forall i | 0 <= i < |t| && t[i] == '*' ensures EscapedAt(t, i) {
        assert t[1..][i - 1] == t[i];
      }
    }
  }

  lemma AllStarsEscapedDrop2(t: string)
    requires |t| >= 2 && t[..2] == "\\*"
    ensures AllStarsEscaped(t) <==> AllStarsEscaped(t[2..])
  {
    assert t[0] == '\\' && t[1] == '*' by { assert t[0] == t[..2][0] && t[1] == t[..2][1]; }
    if AllStarsEscaped(t) {
      forall i | 0 <= i < |t[2..]| && t[2..][i] == '*' ensures EscapedAt(t[2..], i) {
        assert EscapedAt(t, i + 2);
      }
    }
    if AllStarsEscaped(t[2..]) {
      forall i | 0 <= i < |t| && t[i] == '*' ensures EscapedAt(t, i) {
        if i >= 2 { assert t[2..][i - 2] == t[i]; }
      }
    }
  }

  /** With full wildcard support a pattern is a glob exactly when one of its stars is unescaped. */
  lemma FullGlobIffUnescapedStar(t: string)
    ensures IsGlob(t, true) <==> !AllStarsEscaped(t)
  {
    CountEscapedStars(t);
  }

  /** A limited glob that passed the wildcard check has one unescaped star, at its very end. */
  lemma LimitedGlobShape(t: string)
    requires IsGlob(t, false) && !HasMisplacedWildcard(t)
    ensures t[|t| - 1] == '*' && !EscapedAt(t, |t| - 1) && AllStarsEscaped(t[..|t| - 1])
  {
    var n := |t|;
    assert t[n - 1] == '*' by { assert t[n - 1..] == "*"; }
    assert !EscapedAt(t, n - 1) by {
      if n >= 2 { assert t[n - 2..] == [t[n - 2], t[n - 1]]; }
    }
    var p := t[..n - 1];
    forall i | 0 <= i < |p| && p[i] == '*' ensures EscapedAt(p, i) {
      assert !(t[i] == '*' && !EscapedAt(t, i));
    }
  }

  /** A limited non-glob that passed the wildcard check has every star escaped. */
  lemma LimitedNonGlobEscaped(t: string)
    requires !IsGlob(t, false) && !HasMisplacedWildcard(t)
    ensures AllStarsEscaped(t)
  {
    var n := |t|;
    forall i | 0 <= i < n && t[i] == '*' ensures EscapedAt(t, i) {
      if i == n - 1 {
        assert EndsWith(t, "*") by { assert t[n - 1..] == [t[n - 1]]; }
        assert t[n - 2] == t[n - 2..][0];
      } else {
        assert !(t[i] == '*' && !EscapedAt(t, i));
      }
    }
  }

  /**
   * Once a pattern has passed the wildcard check of its mode, it is a glob exactly when it has
   * an unescaped star.
   */
  lemma GlobIffUnescapedStar(t: string, fullWildcardSupport: bool)
    requires fullWildcardSupport || !HasMisplacedWildcard(t)
    ensures IsGlob(t, fullWildcardSupport) <==> !AllStarsEscaped(t)
  {
    if fullWildcardSupport {
      FullGlobIffUnescapedStar(t);
    } else if IsGlob(t, false) {
      LimitedGlobShape(t);
    } else {
      LimitedNonGlobEscaped(t);
    }
  }

  // ---- Escape round trip ----

  lemma {:induction false} UnescapeShortens(t: string)
    ensures |Unescape(t)| + Count(t, "\\*") == |t|
    decreases |t|
  {
    if |t| >= 2 {
      if t[..2] == "\\*" { UnescapeShortens(t[2..]); } else { UnescapeShortens(t[1..]); }
    }
  }

  /** Escaping undoes unescaping on a pattern whose stars are all escaped. */
  lemma {:induction false} EscapeUnescape(t: string)
    requires AllStarsEscaped(t)
    ensures Escape(Unescape(t)) == t
    decreases |t|
  {
    if |t| < 2 {
      if |t| == 1 {
        assert t[0] != '*' by { assert !EscapedAt(t, 0); }
        assert Unescape(t) == t;
        assert t[..1] != "*";
        assert Escape(t) == [t[0]] + Escape([]);
      }
    } else if t[..2] == "\\*" {
      AllStarsEscapedDrop2(t);
      EscapeUnescape(t[2..]);
      var u := Unescape(t[2..]);
      assert Unescape(t) == "*" + u;
      assert ("*" + u)[1..] == u;
      assert Escape("*" + u) == "\\*" + Escape(u);
      assert t == t[..2] + t[2..];
    } else {
      AllStarsEscapedDrop1(t);
      EscapeUnescape(t[1..]);
      var u := Unescape(t[1..]);
      assert Unescape(t) == [t[0]] + u;
      assert ([t[0]] + u)[1..] == u;
      assert Escape([t[0]] + u) == [t[0]] + Escape(u);
      assert t == [t[0]] + t[1..];
    }
  }

  /** A final `*` that is not escaped passes through unescaping. */
  lemma {:induction false} UnescapeAppendStar(p: string)
    requires p == [] || p[|p| - 1] != '\\'
    ensures Unescape(p + "*") == Unescape(p) + "*"
    decreases |p|
  {
    var s := p + "*";
    if p == [] {
    } else if s[..2] == "\\*" {
      assert p[0] == '\\' && |p| >= 2 && p[1] == '*' by { assert s[0] == '\\' && s[1] == '*'; }
      assert p[..2] == "\\*";
      assert s[2..] == p[2..] + "*";
      UnescapeAppendStar(p[2..]);
    } else if |p| >= 2 {
      assert p[..2] == s[..2];
      assert s[1..] == p[1..] + "*";
      UnescapeAppendStar(p[1..]);
    } else {
      assert s[1..] == "*";
      assert Unescape("*") == "*";
      assert Unescape(p) == p;
    }
  }

  /**
   * Reading a pattern and writing it back gives the original text: whatever the mode, a pattern
   * that passed the wildcard check is printed exactly as it was written.
   */
  lemma PrintedTestRoundTrip(raw: string, fullWildcardSupport: bool)
    requires fullWildcardSupport || !HasMisplacedWildcard(raw)
    ensures var g := IsGlob(raw, fullWildcardSupport);
      PrintedTest(ProcessWildcards(raw, g, fullWildcardSupport), g, fullWildcardSupport) == Some(raw)
  {
    var g := IsGlob(raw, fullWildcardSupport);
    GlobIffUnescapedStar(raw, fullWildcardSupport);
    if !g {
      EscapeUnescape(raw);
    } else if !fullWildcardSupport {
      LimitedGlobShape(raw);
      var n := |raw|;
      var p := raw[..n - 1];
      assert raw == p + "*";
      assert p == [] || p[|p| - 1] != '\\' by {
        if p != [] { assert raw[n - 2..] == [p[|p| - 1], '*']; }
      }
      UnescapeAppendStar(p);
      EscapeUnescape(p);
      var u := Unescape(p) + "*";
      assert u[..|u| - 1] == Unescape(p);
    }
  }

  // ---- Matching ----

  /**
   * Glob matching with full wildcard support: `\*` matches a literal star, `*` any run of
   * characters, every other character itself.
   */
  predicate GlobMatch(pattern: string, name: string)
    decreases |pattern| + |name|
  {
    if pattern == [] then name == []
    else if |pattern| >= 2 && pattern[..2] == "\\*" then
      name != [] && name[0] == '*' && GlobMatch(pattern[2..], name[1..])
    else if pattern[0] == '*' then
      GlobMatch(pattern[1..], name) || (name != [] && GlobMatch(pattern, name[1..]))
    else name != [] && name[0] == pattern[0] && GlobMatch(pattern[1..], name[1..])
  }

  /** A pattern without unescaped stars matches exactly the name it spells. */
  lemma {:induction false} LiteralGlobMatch(pattern: string, name: string)
    requires AllStarsEscaped(pattern)
    ensures GlobMatch(pattern, name) <==> name == Unescape(pattern)
    decreases |pattern|
  {
    if pattern == [] {
    } else if |pattern| >= 2 && pattern[..2] == "\\*" {
      AllStarsEscapedDrop2(pattern);
      if name != [] { LiteralGlobMatch(pattern[2..], name[1..]); }
      var u := Unescape(pattern[2..]);
      assert Unescape(pattern) == "*" + u;
      if name != [] && name[0] == '*' {
        assert name == "*" + u <==> name[1..] == u;
      }
    } else {
      if |pattern| == 1 {
        assert pattern[0] != '*' by { assert !EscapedAt(pattern, 0); }
        assert Unescape(pattern) == pattern;
        if name != [] { LiteralGlobMatch([], name[1..]); }
      } else {
        AllStarsEscapedDrop1(pattern);
        if name != [] { LiteralGlobMatch(pattern[1..], name[1..]); }
        var u := Unescape(pattern[1..]);
        assert Unescape(pattern) == [pattern[0]] + u;
        if name != [] && name[0] == pattern[0] {
          assert name == [pattern[0]] + u <==> name[1..] == u;
        }
      }
    }
  }

  /** The limited-mode match: a glob `p*` covers every name that starts with `p`. */
  predicate PrefixMatch(glob: string, name: string)
    requires glob != []
  {
    StartsWith(name, glob[..|glob| - 1])
  }
}

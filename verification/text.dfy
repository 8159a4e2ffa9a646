/** The Python string operations the expectation engine relies on, over `seq<char>`. */
module Text {

  /** Characters for which Python's `str.isspace()` holds. */
  predicate IsSpace(c: char) {
    c == ' ' || c == '\t' || c == '\n' || c == '\r' || c == '\U{B}' || c == '\U{C}'
    || ('\U{1C}' <= c <= '\U{1F}') || c == '\U{85}' || c == '\U{A0}' || c == '\U{1680}'
    || ('\U{2000}' <= c <= '\U{200A}') || c == '\U{2028}' || c == '\U{2029}'
    || c == '\U{202F}' || c == '\U{205F}' || c == '\U{3000}'
  }

  predicate NoSpace(s: string) {
    forall i | 0 <= i < |s| :: !IsSpace(s[i])
  }

  /** Characters at which Python's `str.splitlines()` ends a line. */
  predicate IsLineBreak(c: char) {
    c == '\n' || c == '\r' || c == '\U{B}' || c == '\U{C}' || ('\U{1C}' <= c <= '\U{1E}')
    || c == '\U{85}' || c == '\U{2028}' || c == '\U{2029}'
  }

  predicate StartsWith(s: string, prefix: string) {
    |prefix| <= |s| && s[..|prefix|] == prefix
  }

  predicate EndsWith(s: string, suffix: string) {
    |suffix| <= |s| && s[|s| - |suffix|..] == suffix
  }

  /** `pat` occurs in `s` at index `i`. */
  predicate OccursAt(s: string, pat: string, i: int) {
    0 <= i && i + |pat| <= |s| && s[i..i + |pat|] == pat
  }

  /** `str.lstrip()`: drops leading whitespace. */
  function LStrip(s: string): (r: string)
    ensures |r| <= |s|
    ensures r == [] || !IsSpace(r[0])
    ensures forall i | 0 <= i < |s| - |r| :: IsSpace(s[i])
  {
    if s != [] && IsSpace(s[0]) then LStrip(s[1..]) else s
  }

  /** What `LStrip` keeps is a suffix of its input. */
  lemma {:induction false} LStripSuffix(s: string)
    ensures LStrip(s) == s[|s| - |LStrip(s)|..]
    decreases |s|
  {
    if s != [] && IsSpace(s[0]) {
      LStripSuffix(s[1..]);
    }
  }

  /** `str.rstrip()`: drops trailing whitespace. */
  function RStrip(s: string): (r: string)
    ensures |r| <= |s| && r == s[..|r|]
    ensures r == [] || !IsSpace(r[|r| - 1])
    ensures forall i | |r| <= i < |s| :: IsSpace(s[i])
  {
    if s != [] && IsSpace(s[|s| - 1]) then RStrip(s[..|s| - 1]) else s
  }

  /** `s` is whitespace, then `r` starting at index `a`, then whitespace. */
  predicate Margins(s: string, r: string, a: int) {
    0 <= a && a + |r| <= |s| && s[a..a + |r|] == r && AllSpace(s[..a]) && AllSpace(s[a + |r|..])
  }

  /**
   * `str.strip()`: `s` is `r` with whitespace on either side, and `r` neither starts nor ends
   * with whitespace.
   */
  function Strip(s: string): (r: string)
    ensures exists a :: Margins(s, r, a)
    ensures r == [] || (!IsSpace(r[0]) && !IsSpace(r[|r| - 1]))
    ensures NoSpace(s) ==> r == s
  {
    var l := LStrip(s);
    LStripSuffix(s);
    var r := RStrip(l);
    var a := |s| - |l|;
    assert s[a..a + |r|] == r by { assert s[a..a + |r|] == l[..|r|]; }
    var t := s[a + |r|..];
    assert AllSpace(t) by {
      forall i | 0 <= i < |t| ensures IsSpace(t[i]) {
        assert t[i] == l[|r| + i];
      }
    }
    assert Margins(s, r, a);
    r
  }

  /** Index of the first whitespace character of `s`, or `|s|` when there is none. */
  function FirstSpace(s: string): (k: nat)
    ensures k <= |s| && NoSpace(s[..k]) && (k < |s| ==> IsSpace(s[k]))
  {
    if s == [] || IsSpace(s[0]) then 0
    else
      var k := FirstSpace(s[1..]);
      assert s[..k + 1] == [s[0]] + s[1..][..k];
      k + 1
  }

  /** `str.split()` with no separator: the maximal runs of non-whitespace characters. */
  function Split(s: string): (r: seq<string>)
    ensures forall i | 0 <= i < |r| :: r[i] != [] && NoSpace(r[i])
    decreases |s|
  {
    var t := LStrip(s);
    if t == [] then []
    else
      var k := FirstSpace(t);
      [t[..k]] + Split(t[k..])
  }

  /** `sep.join(parts)`. */
  function Join(parts: seq<string>, sep: string): string {
    if |parts| == 0 then ""
    else if |parts| == 1 then parts[0]
    else parts[0] + sep + Join(parts[1..], sep)
  }

  /** Every character of `s` is whitespace. */
  predicate AllSpace(s: string) {
    forall i | 0 <= i < |s| :: IsSpace(s[i])
  }

  /** Leading whitespace makes no difference to `LStrip`. */
  lemma {:induction false} LStripSpaces(sp: string, rest: string)
    requires AllSpace(sp)
    ensures LStrip(sp + rest) == LStrip(rest)
    decreases |sp|
  {
    if sp != [] {
      assert (sp + rest)[1..] == sp[1..] + rest;
      LStripSpaces(sp[1..], rest);
    } else {
      assert sp + rest == rest;
    }
  }

  /** Leading whitespace makes no difference to `Split`. */
  lemma SplitSpaces(sp: string, rest: string)
    requires AllSpace(sp)
    ensures Split(sp + rest) == Split(rest)
  {
    LStripSpaces(sp, rest);
  }

  /** The first whitespace is the one after a run free of whitespace. */
  lemma FirstSpaceAt(s: string, k: nat)
    requires k <= |s| && NoSpace(s[..k]) && (k < |s| ==> IsSpace(s[k]))
    ensures FirstSpace(s) == k
  {
    var f := FirstSpace(s);
    forall i | 0 <= i < k ensures !IsSpace(s[i]) {
      assert s[..k][i] == s[i];
    }
    forall i | 0 <= i < f ensures !IsSpace(s[i]) {
      assert s[..f][i] == s[i];
    }
  }

  /** A word followed by whitespace is split off as the first word. */
  lemma SplitCons(w: string, sp: string, rest: string)
    requires w != [] && NoSpace(w) && sp != [] && AllSpace(sp)
    ensures Split(w + sp + rest) == [w] + Split(rest)
  {
    var s := w + sp + rest;
    assert s[0] == w[0];
    assert LStrip(s) == s;
    assert s[..|w|] == w;
    FirstSpaceAt(s, |w|);
    assert s[|w|..] == sp + rest;
    SplitSpaces(sp, rest);
  }

  /** A single word splits into itself. */
  lemma SplitWord(w: string)
    requires w != [] && NoSpace(w)
    ensures Split(w) == [w]
  {
    assert w[..|w|] == w;
    FirstSpaceAt(w, |w|);
    assert w[|w|..] == [];
  }

  /** Splitting words joined by single spaces gives the words back. */
  lemma {:induction false} SplitJoin(ws: seq<string>)
    requires forall i | 0 <= i < |ws| :: ws[i] != [] && NoSpace(ws[i])
    ensures Split(Join(ws, " ")) == ws
    decreases |ws|
  {
    if |ws| == 1 {
      SplitWord(ws[0]);
    } else if |ws| > 1 {
      SplitJoin(ws[1..]);
      assert AllSpace(" ");
      SplitCons(ws[0], " ", Join(ws[1..], " "));
    }
  }

  /** Index of the first line-break character of `s`, or `|s|` when there is none. */
  function FirstLineBreak(s: string): (k: nat)
    ensures k <= |s| && (k < |s| ==> IsLineBreak(s[k]))
    ensures forall i | 0 <= i < k :: !IsLineBreak(s[i])
  {
    if s == [] || IsLineBreak(s[0]) then 0 else FirstLineBreak(s[1..]) + 1
  }

  /** `str.splitlines()`: `\r\n` ends a line as one break, and a final break opens no empty line. */
  function SplitLines(s: string): (r: seq<string>)
    ensures forall i, j | 0 <= i < |r| && 0 <= j < |r[i]| :: !IsLineBreak(r[i][j])
    ensures s == [] <==> r == []
    decreases |s|
  {
    if s == [] then []
    else
      var k := FirstLineBreak(s);
      if k == |s| then [s]
      else [s[..k]] + SplitLines(s[BreakEnd(s, k)..])
  }

  /** The index after the break at `k`: `\r\n` is one break. */
  function BreakEnd(s: string, k: nat): (next: nat)
    requires k < |s|
    ensures k < next <= |s|
  {
    if s[k] == '\r' && k + 1 < |s| && s[k + 1] == '\n' then k + 2 else k + 1
  }

  /** What `str.splitlines()` drops: `\r\n`, or one line-break character. */
  predicate IsBreak(b: string) {
    b == "\r\n" || (|b| == 1 && IsLineBreak(b[0]))
  }

  /** The lines, each followed by its break. */
  function Interleave(lines: seq<string>, breaks: seq<string>): string
    requires |lines| == |breaks|
  {
    if lines == [] then "" else lines[0] + breaks[0] + Interleave(lines[1..], breaks[1..])
  }

  /** The break after each line of `SplitLines(s)`: empty after a last line that ends `s`. */
  function LineBreaks(s: string): (r: seq<string>)
    ensures forall i | 0 <= i < |r| - 1 :: IsBreak(r[i])
    ensures |r| > 0 ==> r[|r| - 1] == [] || IsBreak(r[|r| - 1])
    decreases |s|
  {
    if s == [] then []
    else
      var k := FirstLineBreak(s);
      if k == |s| then [[]]
      else
        var next := BreakEnd(s, k);
        var b := s[k..next];
        assert IsBreak(b) by {
          if next == k + 2 { assert b == [s[k], s[k + 1]]; }
        }
        [b] + LineBreaks(s[next..])
  }

  /** `SplitLines(s)` cuts `s` at its breaks: putting the breaks back gives `s`. */
  lemma {:induction false} SplitLinesRejoin(s: string)
    ensures |LineBreaks(s)| == |SplitLines(s)|
    ensures s == Interleave(SplitLines(s), LineBreaks(s))
    decreases |s|
  {
    if s != [] {
      var k := FirstLineBreak(s);
      if k < |s| {
        var next := BreakEnd(s, k);
        SplitLinesRejoin(s[next..]);
        SplitLinesStep(s);
        InterleaveCons(s[..k], s[k..next], SplitLines(s[next..]), LineBreaks(s[next..]));
        ThreeParts(s, k, next);
      }
    }
  }

  /** One line and its break are cut off the front. */
  lemma SplitLinesStep(s: string)
    requires s != [] && FirstLineBreak(s) < |s|
    ensures var k := FirstLineBreak(s);
      SplitLines(s) == [s[..k]] + SplitLines(s[BreakEnd(s, k)..])
      && LineBreaks(s) == [s[k..BreakEnd(s, k)]] + LineBreaks(s[BreakEnd(s, k)..])
  {
  }

  lemma InterleaveCons(line: string, b: string, lines: seq<string>, breaks: seq<string>)
    requires |lines| == |breaks|
    ensures Interleave([line] + lines, [b] + breaks) == line + b + Interleave(lines, breaks)
  {
    assert ([line] + lines)[1..] == lines && ([b] + breaks)[1..] == breaks;
  }

  lemma ThreeParts(s: string, k: nat, next: nat)
    requires k <= next <= |s|
    ensures s == s[..k] + s[k..next] + s[next..]
  {
  }

  function LowerChar(c: char): char {
    if 'A' <= c <= 'Z' then (c as int + 32) as char else c
  }

  function UpperChar(c: char): char {
    if 'a' <= c <= 'z' then (c as int - 32) as char else c
  }

  /** `str.lower()` on ASCII letters. */
  function Lower(s: string): (r: string)
    ensures |r| == |s| && forall i | 0 <= i < |s| :: r[i] == LowerChar(s[i])
  {
    seq(|s|, i requires 0 <= i < |s| => LowerChar(s[i]))
  }

  /** `str.replace(pat, rep)`: left-to-right, non-overlapping occurrences. */
  function Replace(s: string, pat: string, rep: string): string
    requires pat != []
    decreases |s|
  {
    if |s| < |pat| then s
    else if s[..|pat|] == pat then rep + Replace(s[|pat|..], pat, rep)
    else [s[0]] + Replace(s[1..], pat, rep)
  }

  /** `str.count(pat)`: the number of occurrences `Replace` would rewrite. */
  function Count(s: string, pat: string): nat
    requires pat != []
    decreases |s|
  {
    if |s| < |pat| then 0
    else if s[..|pat|] == pat then 1 + Count(s[|pat|..], pat)
    else Count(s[1..], pat)
  }

  /** The first index in `i..` at which `pat` occurs, or -1. */
  function FindFrom(s: string, pat: string, i: nat): (r: int)
    ensures r == -1 || (i <= r && OccursAt(s, pat, r))
    decreases |s| - i
  {
    if i + |pat| > |s| then -1
    else if OccursAt(s, pat, i) then i
    else FindFrom(s, pat, i + 1)
  }

  /** `pat` occurs nowhere from `i` on before `FindFrom(s, pat, i)`, and nowhere at all when that is -1. */
  lemma {:induction false} FindFromIsFirst(s: string, pat: string, i: nat)
    ensures var r := FindFrom(s, pat, i);
      forall j | i <= j && (r == -1 || j < r) :: !OccursAt(s, pat, j)
    decreases |s| - i
  {
    if i + |pat| <= |s| && !OccursAt(s, pat, i) {
      FindFromIsFirst(s, pat, i + 1);
    }
  }

  /** `str.find(pat)`: the first index at which `pat` occurs, or -1. */
  function Find(s: string, pat: string): (r: int)
    ensures r == -1 || OccursAt(s, pat, r)
  {
    FindFrom(s, pat, 0)
  }

  /** `Find` returns the first occurrence: `pat` occurs nowhere before it. */
  lemma FindIsFirst(s: string, pat: string)
    ensures var r := Find(s, pat);
      forall j | 0 <= j && (r == -1 || j < r) :: !OccursAt(s, pat, j)
  {
    FindFromIsFirst(s, pat, 0);
  }

  /** A pattern that occurs at `i` is found at `i` or before. */
  lemma FindAtMost(s: string, pat: string, i: nat)
    requires OccursAt(s, pat, i)
    ensures 0 <= Find(s, pat) <= i
  {
    FindIsFirst(s, pat);
  }

  /** A pattern the string starts with is found at 0. */
  lemma FindAtStart(s: string, pat: string)
    requires OccursAt(s, pat, 0)
    ensures Find(s, pat) == 0
  {
  }

  /** The last index in `..i` at which `pat` occurs, or -1. */
  function RFindUpTo(s: string, pat: string, i: int): (r: int)
    ensures r == -1 || (r <= i && OccursAt(s, pat, r))
    ensures forall j | r < j <= i :: !OccursAt(s, pat, j)
    decreases i + 1
  {
    if i < 0 then -1
    else if OccursAt(s, pat, i) then i
    else RFindUpTo(s, pat, i - 1)
  }

  /** `str.rfind(pat)`: the last index at which `pat` occurs, or -1. */
  function RFind(s: string, pat: string): (r: int)
    ensures r == -1 || OccursAt(s, pat, r)
    ensures forall j | r < j :: !OccursAt(s, pat, j)
  {
    RFindUpTo(s, pat, |s| - |pat|)
  }

  /** Decimal spelling of a natural number, as `'%d' % n`. */
  function NatToString(n: nat): (r: string)
    ensures r != [] && IsDecimal(r)
  {
    var d := ['0' + (n % 10) as char];
    if n < 10 then d else NatToString(n / 10) + d
  }

  predicate IsDecimal(r: string) {
    forall i | 0 <= i < |r| :: '0' <= r[i] <= '9'
  }

  /** The number a string of decimal digits stands for. */
  function DecimalValue(r: string): nat
    requires IsDecimal(r)
  {
    if r == [] then 0 else DecimalValue(r[..|r| - 1]) * 10 + (r[|r| - 1] - '0') as nat
  }

  /** `NatToString(n)` spells `n` in decimal, with no leading zero. */
  lemma {:induction false} NatToStringValue(n: nat)
    ensures DecimalValue(NatToString(n)) == n
    ensures |NatToString(n)| > 1 ==> NatToString(n)[0] != '0'
    decreases n
  {
    if n >= 10 {
      var hi := NatToString(n / 10);
      NatToStringValue(n / 10);
      assert (hi + ['0' + (n % 10) as char])[..|hi|] == hi;
      if |hi| == 1 {
        assert hi[0] == '0' + (n / 10) as char;
      }
    }
  }

  // ---- Python's ordering of str values: code point by code point ----

  predicate LexLe(a: string, b: string) {
    a == [] || (b != [] && (a[0] < b[0] || (a[0] == b[0] && LexLe(a[1..], b[1..]))))
  }

  lemma LexLeReflexive(a: string)
    ensures LexLe(a, a)
  {
  }

  lemma LexLeTotal(a: string, b: string)
    ensures LexLe(a, b) || LexLe(b, a)
  {
  }

  lemma LexLeAntisymmetric(a: string, b: string)
    ensures LexLe(a, b) && LexLe(b, a) ==> a == b
  {
    if a != [] && b != [] && a[0] == b[0] {
      LexLeAntisymmetric(a[1..], b[1..]);
      assert a == [a[0]] + a[1..] && b == [b[0]] + b[1..];
    }
  }

  lemma LexLeTransitive(a: string, b: string, c: string)
    ensures LexLe(a, b) && LexLe(b, c) ==> LexLe(a, c)
  {
    if a != [] && b != [] && c != [] {
      LexLeTransitive(a[1..], b[1..], c[1..]);
    }
  }

  lemma LexLeAntisymmetricAll()
    ensures forall a, b :: LexLe(a, b) && LexLe(b, a) ==> a == b
  {
    forall a, b ensures LexLe(a, b) && LexLe(b, a) ==> a == b {
      LexLeAntisymmetric(a, b);
    }
  }

  predicate Sorted(s: seq<string>) {
    forall i, j | 0 <= i < j < |s| :: LexLe(s[i], s[j])
  }

  /** Sorted without repetitions: the shape of `sorted(some_set)`. */
  predicate StrictlySorted(s: seq<string>) {
    Sorted(s) && forall i, j | 0 <= i < j < |s| :: s[i] != s[j]
  }

  /** `x` put into `s` before the first element it does not follow. */
  function Insert(x: string, s: seq<string>): (r: seq<string>)
    ensures multiset(r) == multiset(s) + multiset{x}
  {
    if s == [] || LexLe(x, s[0]) then [x] + s
    else
      assert s == [s[0]] + s[1..];
      [s[0]] + Insert(x, s[1..])
  }

  /** Inserting into a sorted sequence keeps it sorted. */
  lemma {:induction false} InsertKeepsSorted(x: string, s: seq<string>)
    requires Sorted(s)
    ensures Sorted(Insert(x, s))
  {
    if s == [] || LexLe(x, s[0]) {
      InsertFrontSorted(x, s);
    } else {
      LexLeTotal(x, s[0]);
      InsertKeepsSorted(x, s[1..]);
      InsertBehindSorted(x, s, Insert(x, s[1..]));
    }
  }

  lemma InsertFrontSorted(x: string, s: seq<string>)
    requires Sorted(s) && (s == [] || LexLe(x, s[0]))
    ensures Sorted([x] + s)
  {
    var r := [x] + s;
    forall i, j | 0 <= i < j < |r| ensures LexLe(r[i], r[j]) {
      if i == 0 {
        if j > 1 { LexLeTransitive(x, s[0], s[j - 1]); }
      }
    }
  }

  lemma InsertBehindSorted(x: string, s: seq<string>, t: seq<string>)
    requires Sorted(s) && s != [] && LexLe(s[0], x)
    requires Sorted(t) && multiset(t) == multiset(s[1..]) + multiset{x}
    ensures Sorted([s[0]] + t)
  {
    var r := [s[0]] + t;
    forall i, j | 0 <= i < j < |r| ensures LexLe(r[i], r[j]) {
      if i == 0 {
        var y := t[j - 1];
        assert y in multiset(t);
        if y != x {
          assert y in multiset(s[1..]);
          var k :| 0 <= k < |s[1..]| && s[1..][k] == y;
          assert s[k + 1] == y;
        }
      }
    }
  }

  /** `sorted(xs)` for a list of strings: its elements rearranged (see `SortIsSorted`). */
  function Sort(xs: seq<string>): (r: seq<string>)
    ensures multiset(r) == multiset(xs)
    ensures |r| == |xs| && forall x :: x in r <==> x in xs
  {
    if xs == [] then []
    else
      assert xs == [xs[0]] + xs[1..];
      var r := Insert(xs[0], Sort(xs[1..]));
      assert |r| == |multiset(r)|;
      assert forall x :: x in r <==> x in multiset(r);
      assert forall x :: x in xs <==> x in multiset(xs);
      r
  }

  /** `Sort` yields a sorted sequence. */
  lemma {:induction false} SortIsSorted(xs: seq<string>)
    ensures Sorted(Sort(xs))
  {
    if xs != [] {
      SortIsSorted(xs[1..]);
      InsertKeepsSorted(xs[0], Sort(xs[1..]));
    }
  }

  lemma LexMinExists(s: set<string>)
    requires s != {}
    ensures exists m :: m in s && forall y | y in s :: LexLe(m, y)
  {
    var x :| x in s;
    if s == {x} {
      LexLeReflexive(x);
      assert forall y | y in s :: y == x;
    } else {
      var rest := s - {x};
      LexMinExists(rest);
      var m :| m in rest && forall y | y in rest :: LexLe(m, y);
      LexLeTotal(m, x);
      if LexLe(m, x) {
        forall y | y in s ensures LexLe(m, y) {
          if y != x { assert y in rest; }
        }
      } else {
        forall y | y in s ensures LexLe(x, y) {
          if y == x { LexLeReflexive(x); } else { assert y in rest; LexLeTransitive(x, m, y); }
        }
      }
    }
  }

  /** The least string of a nonempty set. */
  function LexMin(s: set<string>): (m: string)
    requires s != {}
    ensures m in s && forall y | y in s :: LexLe(m, y)
  {
    LexMinExists(s);
    LexLeAntisymmetricAll();
    var m :| m in s && forall y | y in s :: LexLe(m, y);
    m
  }

  /** `sorted(s)` for a set of strings: its elements, each once (see `SortedSetIsStrictlySorted`). */
  function SortedSet(s: set<string>): (r: seq<string>)
    ensures |r| == |s|
    ensures forall x :: x in r <==> x in s
    decreases s
  {
    if s == {} then []
    else
      var m := LexMin(s);
      var rest := SortedSet(s - {m});
      [m] + rest
  }

  /** `SortedSet` lists the elements in increasing order, with no repetition. */
  lemma {:induction false} SortedSetIsStrictlySorted(s: set<string>)
    ensures StrictlySorted(SortedSet(s))
    decreases s
  {
    if s != {} {
      var m := LexMin(s);
      var rest := SortedSet(s - {m});
      SortedSetIsStrictlySorted(s - {m});
      forall j | 0 <= j < |rest| ensures LexLe(m, rest[j]) && m != rest[j] {
        assert rest[j] in s - {m};
      }
      ConsStrictlySorted(m, rest);
    }
  }

  lemma ConsStrictlySorted(m: string, rest: seq<string>)
    requires StrictlySorted(rest)
    requires forall j | 0 <= j < |rest| :: LexLe(m, rest[j]) && m != rest[j]
    ensures StrictlySorted([m] + rest)
  {
    var r := [m] + rest;
    forall i, j | 0 <= i < j < |r| ensures LexLe(r[i], r[j]) && r[i] != r[j] {
      assert r[j] == rest[j - 1];
      if i > 0 { assert r[i] == rest[i - 1]; }
    }
  }
}

/** `convert_newlines` from typ/test_case.py: universal-newline conversion of a captured string. */
module Newlines {
  import opened Text

  /**
   * Reference reading of universal newlines: scanning left to right, a `\r\n` pair and a lone
   * `\r` each become one `\n`; every other character is kept, in order.
   */
  function LineEndingsNormalized(s: string): (r: string)
    ensures '\r' !in r && |r| <= |s|
    decreases |s|
  {
    if s == [] then []
    else if s[0] == '\r' then "\n" + LineEndingsNormalized(if |s| > 1 && s[1] == '\n' then s[2..] else s[1..])
    else [s[0]] + LineEndingsNormalized(s[1..])
  }

  /** `msg.replace('\r\n', '\n').replace('\r', '\n')`. */
  function ConvertNewlines(msg: string): (r: string)
    ensures r == LineEndingsNormalized(msg)
  {
    ReplaceChainNormalizes(msg);
    Replace(Replace(msg, "\r\n", "\n"), "\r", "\n")
  }

  /** The two chained replacements perform exactly the left-to-right line-ending scan. */
  lemma {:induction false} ReplaceChainNormalizes(s: string)
    ensures Replace(Replace(s, "\r\n", "\n"), "\r", "\n") == LineEndingsNormalized(s)
    decreases |s|
  {
    if s == [] {
    } else if |s| > 1 && s[..2] == "\r\n" {
      ReplaceChainPair(s);
      ReplaceChainNormalizes(s[2..]);
    } else {
      ReplaceChainSingle(s);
      ReplaceChainNormalizes(s[1..]);
    }
  }

  /** A leading `\r\n` pair becomes one `\n`. */
  lemma ReplaceChainPair(s: string)
    requires |s| > 1 && s[..2] == "\r\n"
    ensures Replace(Replace(s, "\r\n", "\n"), "\r", "\n") == "\n" + Replace(Replace(s[2..], "\r\n", "\n"), "\r", "\n")
    ensures LineEndingsNormalized(s) == "\n" + LineEndingsNormalized(s[2..])
  {
    var rest := Replace(s[2..], "\r\n", "\n");
    assert Replace(s, "\r\n", "\n") == "\n" + rest;
    assert ("\n" + rest)[1..] == rest;
    assert s[0] == '\r' && s[1] == '\n' by { assert s[..2][0] == s[0] && s[..2][1] == s[1]; }
  }

  /** Any other first character is kept, a lone `\r` becoming `\n`. */
  lemma ReplaceChainSingle(s: string)
    requires s != [] && !(|s| > 1 && s[..2] == "\r\n")
    ensures var c := if s[0] == '\r' then "\n" else [s[0]];
      Replace(Replace(s, "\r\n", "\n"), "\r", "\n") == c + Replace(Replace(s[1..], "\r\n", "\n"), "\r", "\n")
      && LineEndingsNormalized(s) == c + LineEndingsNormalized(s[1..])
  {
    var rest := Replace(s[1..], "\r\n", "\n");
    assert Replace(s, "\r\n", "\n") == [s[0]] + rest;
    assert ([s[0]] + rest)[1..] == rest;
    if s[0] == '\r' && |s| > 1 {
      assert s[..2] == [s[0], s[1]];
    }
  }

  /** A string without carriage returns is left unchanged. */
  lemma {:induction false} NormalizedKeepsPlainText(s: string)
    requires '\r' !in s
    ensures LineEndingsNormalized(s) == s
    decreases |s|
  {
    if s != [] {
      assert '\r' !in s[1..] by { assert forall c | c in s[1..] :: c in s; }
      NormalizedKeepsPlainText(s[1..]);
    }
  }

  /** The output never contains `\r`. */
  lemma ConvertNewlinesRemovesCarriageReturns(msg: string)
    ensures '\r' !in ConvertNewlines(msg)
  {
  }

  /** A string with no `\r` is returned unchanged. */
  lemma ConvertNewlinesKeepsPlainText(msg: string)
    requires '\r' !in msg
    ensures ConvertNewlines(msg) == msg
  {
    NormalizedKeepsPlainText(msg);
  }

  /** Converting twice is converting once, and conversion never lengthens its input. */
  lemma ConvertNewlinesIdempotent(msg: string)
    ensures ConvertNewlines(ConvertNewlines(msg)) == ConvertNewlines(msg)
    ensures |ConvertNewlines(msg)| <= |msg|
  {
    NormalizedKeepsPlainText(ConvertNewlines(msg));
  }

  /** Text without carriage returns in front passes through the scan unchanged. */
  lemma {:induction false} NormalizedPlainPrefix(a: string, b: string)
    requires '\r' !in a
    ensures LineEndingsNormalized(a + b) == a + LineEndingsNormalized(b)
    decreases |a|
  {
    if a == [] {
      assert a + b == b;
    } else {
      assert a[0] != '\r' && (a + b)[0] == a[0] && (a + b)[1..] == a[1..] + b;
      NormalizedPlainPrefix(a[1..], b);
      assert a == [a[0]] + a[1..];
    }
  }

  /** A `\r` followed by something other than `\n` becomes one `\n`. */
  lemma LoneCarriageReturn(b: string)
    requires b == [] || b[0] != '\n'
    ensures LineEndingsNormalized("\r" + b) == "\n" + LineEndingsNormalized(b)
  {
    assert ("\r" + b)[1..] == b;
  }

  /** A `\r\n` pair becomes one `\n`. */
  lemma CarriageReturnLineFeed(b: string)
    ensures LineEndingsNormalized("\r\n" + b) == "\n" + LineEndingsNormalized(b)
  {
    assert ("\r\n" + b)[2..] == b;
  }

  /** The first two cases of `test_convert_newlines` in typ/tests/test_case_test.py: no `\r`, nothing changes. */
  lemma ConvertNewlinesExample()
    ensures ConvertNewlines("foo") == "foo"
    ensures ConvertNewlines("foo\nbar\nbaz") == "foo\nbar\nbaz"
  {
    NormalizedKeepsPlainText("foo");
    NormalizedKeepsPlainText("foo\nbar\nbaz");
  }

  /** Two stretches of plain text each followed by a lone `\r`: both become `\n`. */
  lemma LoneReturns(a: string, b: string)
    requires '\r' !in a && '\r' !in b && (b == [] || b[0] != '\n')
    ensures LineEndingsNormalized(a + ("\r" + (b + "\r"))) == a + ("\n" + (b + "\n"))
  {
    LoneCarriageReturn("");
    NormalizedPlainPrefix(b, "\r");
    LoneCarriageReturn(b + "\r");
    NormalizedPlainPrefix(a, "\r" + (b + "\r"));
  }

  /** Three stretches of plain text each followed by `\r\n`: each pair becomes one `\n`. */
  lemma PairedReturns(a: string, b: string, c: string, d: string)
    requires '\r' !in a && '\r' !in b && '\r' !in c && '\r' !in d
    ensures LineEndingsNormalized(a + ("\r\n" + (b + ("\r\n" + (c + ("\r\n" + d))))))
         == a + ("\n" + (b + ("\n" + (c + ("\n" + d)))))
  {
    var s3 := "\r\n" + d;
    var s2 := "\r\n" + (c + s3);
    var s1 := "\r\n" + (b + s2);
    NormalizedKeepsPlainText(d);
    CarriageReturnLineFeed(d);
    NormalizedPlainPrefix(c, s3);
    CarriageReturnLineFeed(c + s3);
    NormalizedPlainPrefix(b, s2);
    CarriageReturnLineFeed(b + s2);
    NormalizedPlainPrefix(a, s1);
  }

  /** The third case of `test_convert_newlines`: each lone `\r` becomes `\n`. */
  lemma ConvertNewlinesLoneExample(msg: string)
    requires msg == "foo\rbar\nbaz\r"
    ensures ConvertNewlines(msg) == "foo\nbar\nbaz\n"
  {
    LoneReturns("foo", "bar\nbaz");
    assert msg == "foo" + ("\r" + ("bar\nbaz" + "\r"));
    assert LineEndingsNormalized(msg) == "foo" + ("\n" + ("bar\nbaz" + "\n"));
    assert "foo" + ("\n" + ("bar\nbaz" + "\n")) == "foo\nbar\nbaz\n";
  }

  /** The fourth case of `test_convert_newlines`: each `\r\n` becomes one `\n`. */
  lemma ConvertNewlinesPairExample(msg: string)
    requires msg == "foo\r\nbar\r\nbaz\r\nmeh\n"
    ensures ConvertNewlines(msg) == "foo\nbar\nbaz\nmeh\n"
  {
    PairedReturns("foo", "bar", "baz", "meh\n");
    PairExampleLines();
  }

  /** The input and the output of the fourth case, cut at their line endings. */
  lemma PairExampleLines()
    ensures "foo" + ("\r\n" + ("bar" + ("\r\n" + ("baz" + ("\r\n" + "meh\n")))))
         == "foo\r\nbar\r\nbaz\r\nmeh\n"
    ensures "foo" + ("\n" + ("bar" + ("\n" + ("baz" + ("\n" + "meh\n")))))
         == "foo\nbar\nbaz\nmeh\n"
  {
  }
}

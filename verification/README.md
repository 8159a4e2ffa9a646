# typ test expectations, modelled in Dafny

This project models the test-expectations engine of `typ`, the Python test runner, together with its
`convert_newlines` helper.

An expectations file is plain text with three kinds of content:

- `# tags: [ ... ]` headers, which declare tag sets; `# results: [ ... ]` headers, which declare the
  result names a file may use;
- three directives: `# conflict_resolution:`, `# conflicts_allowed:` and `# full_wildcard_support:`;
- data lines of the form `<bugs> [ <tags> ] <test or glob> [ <results> ] # comment`.

`TaggedTestListParser` reads such a file line by line into rules (`Expectation`). `TestExpectations`:

- files the rules by test name, and by glob pattern: a file's globs are sorted longest first and
  appended after the patterns already filed;
- answers `expectations_for(test)` by merging the rules whose tags are all in effect;
- reports rules under one pattern that no tag tells apart;
- reports rules that no listed test reaches.

Modules, following the program's structure:

| module | models |
|---|---|
| `Wrappers` | `Option`/`Result` for Python's `None` and raised exceptions |
| `Text` | the Python string operations the engine uses (`strip`, `split`, `splitlines`, `lower`, `find`, `rfind`, `sorted`) |
| `Newlines` | `convert_newlines` |
| `Expectations` | result spellings, `_group_to_string`, the `Expectation` record, `to_string`, `add_expectations`, the `test` setter |
| `Wildcards` | glob detection, `\*` escapes, glob matching |
| `DataLine` | the data-line pattern `MATCHER` and the reason rebuild |
| `ParserLines` | what each kind of line does to the parser's state |
| `Parse` | the parse loop as a function, and what a successful parse guarantees |
| `Parser` | the class `TaggedTestListParser`, with methods proved against `ParserLines`/`Parse` |
| `Ordering` | the stable descending sort by pattern length |
| `Buckets` | the ordered dictionaries of rules by pattern |
| `Filing` | how `parse_tagged_list` files a parsed file's rules |
| `Lookup` | `expectations_for` and `_MergedExpectationData` as functions |
| `Checks` | conflict, broken-rule and unknown-tag checks as functions |
| `Store` | the classes `TestExpectations` and `_MergedExpectationData`, with methods proved against the functions above |

Where code changes state in place, the model does too: the two parser and store objects are classes
whose methods update fields. Their `ensures` tie the new fields to the specification functions, and
lemmas state what those functions guarantee. Code that only computes a value is written as functions.

The data-line regular expression is modelled as the backtracking search Python's `re` makes,
trying the alternatives in the pattern's order of priority:

- bug references for as long as the rest of the line still matches; each one is tried first with
  a subproject, which runs over everything up to the next `/` (whitespace and other references
  included), and then without one;
- a tag block ending at the last ` ] ` that still lets the line match;
- the test, up to the next space;
- a result block ending at the last ` ]` whose contents hold no `[` or `.`;
- an optional comment.

## Model

| member | source | states |
|---|---|---|
| Newlines.ConvertNewlines | typ/test_case.py:22-24 | The result is the universal-newline reading of the input: a left-to-right scan in which each `\r\n` and each lone `\r` become one `\n`. |
| Newlines.ReplaceChainNormalizes | typ/test_case.py:24 | Replacing `\r\n` and then `\r` is exactly that scan. |
| Newlines.ConvertNewlinesRemovesCarriageReturns | typ/test_case.py:22-24 | No `\r` is left in the output. |
| Newlines.ConvertNewlinesKeepsPlainText | typ/test_case.py:22-24 | Text without `\r` comes back unchanged. |
| Newlines.ConvertNewlinesIdempotent | typ/test_case.py:22-24 | Converting twice is the same as converting once, and the output is never longer than the input. |
| Newlines.ConvertNewlinesExample | typ/tests/test_case_test.py:49-52 | `foo` and `foo\nbar\nbaz` come back unchanged. |
| Newlines.ConvertNewlinesLoneExample | typ/tests/test_case_test.py:53 | `foo\rbar\nbaz\r` becomes `foo\nbar\nbaz\n`. |
| Newlines.ConvertNewlinesPairExample | typ/tests/test_case_test.py:54-55 | `foo\r\nbar\r\nbaz\r\nmeh\n` becomes `foo\nbar\nbaz\nmeh\n`. |
| Text.Strip | typ/expectations_parser.py:301 | The input is the result with only whitespace before and after it, and the result neither starts nor ends with whitespace; an input without whitespace is kept whole. |
| Text.Split | typ/expectations_parser.py:446-447 | Every word is nonempty and free of whitespace. |
| Text.SplitLines | typ/expectations_parser.py:296 | No line holds a line break, and an empty text gives no lines. |
| Text.LineBreaks | typ/expectations_parser.py:296 | Every line but the last is followed by `\r\n` or one line-break character; the last by one of those or by the end of the text. |
| Text.SplitLinesRejoin | typ/expectations_parser.py:296 | The lines are the segments of the text: each line followed by its break, in order, gives back the whole text. |
| Text.FindIsFirst | typ/expectations_parser.py:529 | `find` returns an occurrence, and the pattern occurs nowhere before it. |
| Text.RFind | typ/expectations_parser.py:56 | `rfind` returns an occurrence, and the pattern occurs nowhere after it. |
| Text.NatToString | typ/expectations_parser.py:67 | The `%d` spelling is a nonempty run of digits. |
| Text.NatToStringValue | typ/expectations_parser.py:67 | The digits stand for the number itself in decimal, with no leading zero. |
| Text.Sort | typ/expectations_parser.py:160-162 | `sorted` returns a permutation of its input. |
| Text.SortIsSorted | typ/expectations_parser.py:160-162 | The permutation is in lexicographic order. |
| Text.SortedSet | typ/expectations_parser.py:168 | `sorted` of a set lists exactly its elements, each once. |
| Text.SortedSetIsStrictlySorted | typ/expectations_parser.py:168 | That list is strictly increasing. |
| Text.SplitSpaces | typ/expectations_parser.py:446-447 | Leading whitespace does not change `split()`. |
| Text.SplitCons | typ/expectations_parser.py:446-447 | A word followed by whitespace splits into that word and the split of the rest. |
| Text.SplitJoin | typ/expectations_parser.py:160-163 | Splitting words joined by single spaces gives the words back, when each word is nonempty and free of whitespace. |
| Expectations.ExpectationMap | typ/expectations_parser.py:22-28 | A known spelling maps to the outcome spelt that way; an unknown one maps to nothing. |
| Expectations.ResultTagRoundTrip | typ/expectations_parser.py:22-36 | Mapping an outcome's `RESULT_TAGS` spelling back through `_EXPECTATION_MAP` gives the outcome. |
| Expectations.ResultTagSpellings | typ/expectations_parser.py:30-36 | Every outcome is spelt as one of the five names. |
| Expectations.GroupToStringSingle | typ/expectations_parser.py:54-57 | Zero or one word is printed as it is. |
| Expectations.GroupToStringEnglish | typ/expectations_parser.py:54-57 | Two or more words read as English: comma-separated, with ` and ` before the last. |
| Expectations.NewExpectation | typ/expectations_parser.py:71-117 | Results are never empty. Missing results mean `{Pass}` and mark a default pass. Given results are kept. The tags are the given ones. |
| Expectations.DefaultExpectation | typ/expectations_parser.py:801 | The fallback rule expects `Pass`, is a default pass, and has no tags, flags or reason. |
| Expectations.EqualIgnoresGlobMode | typ/expectations_parser.py:119-126 | Equality ignores the glob mode and is an equivalence relation. |
| Expectations.PrintedTags | typ/expectations_parser.py:174-178 | Printed tags are the raw tags as written. Without raw tags, they are the capitalised tags. An empty tag raises. |
| Expectations.PrintedTagsSorted | typ/expectations_parser.py:160 | Printed tags are sorted, and strictly sorted when rebuilt from the tags. |
| Expectations.PrintedResults | typ/expectations_parser.py:180-188 | Printed results are the raw results as written. Without raw results, they spell the outcomes plus `Slow`/`RetryOnFailure` when those flags are set. |
| Expectations.PrintedResultsSorted | typ/expectations_parser.py:162 | Printed results are sorted. |
| Expectations.ToString | typ/expectations_parser.py:128-164 | `to_string` fails with the assertion exactly for a limited glob whose test does not end in `*`, and otherwise with the empty-tag error exactly when an empty tag has to be capitalised. A printed line is the reason and a space (when there is a reason), the sorted tags in `[ ]`, the test written back, the sorted results in `[ ]` and the trailing comments. |
| Expectations.MergeReasonsWords | typ/expectations_parser.py:167-168 | The merged reason holds the words of both reasons, each once, in sorted order. |
| Expectations.AddExpectationsAsWritten | typ/expectations_parser.py:166-172 | As written, `add_expectations` unions the results and leaves tags, test, line and flags alone. A nonempty new reason is merged into the old one. Growing results rebuilds the printed results from outcomes only. Nothing but the reason, the results and the printed results changes. |
| Expectations.AddExpectations | typ/expectations_parser.py:166-172 | Corrected: the same, including the reason merge and the frame, except the printed results are rebuilt from the outcomes and both flags. Adding known results changes only the reason. |
| Expectations.AddExpectationsPrintsItsResults | typ/expectations_parser.py:166-172 | The corrected version keeps a rule's printed results in step with its outcomes and flags. |
| Expectations.AddKnownResultsKeepsPrinted | typ/expectations_parser.py:169 | Adding results a rule already has leaves what it prints unchanged. |
| Expectations.AddExpectationsAsWrittenDropsSlow | typ/expectations_parser.py:169-172 | Counterexample: a `[ Failure Slow ]` rule given `Timeout` no longer prints `Slow`, though it is still slow. |
| Expectations.GrownResultsAsWrittenLoseFlags | typ/expectations_parser.py:169-172 | As written, growing a slow rule's results always loses `Slow` from what it prints. |
| Expectations.OutcomeSpellings | typ/expectations_parser.py:171-172 | Spellings rebuilt from outcomes alone hold neither flag. |
| Expectations.SetTest | typ/expectations_parser.py:206-216 | The setter rejects an empty name, and a limited-glob name not ending in `*`; otherwise only the test changes. |
| Expectations.SetTestKeepsPrintable | typ/expectations_parser.py:143-146 | A name the setter accepts never trips the `to_string` assertion. |
| Wildcards.ProcessWildcards | typ/expectations_parser.py:493-507 | Outside full-wildcard globs, each `\*` loses its backslash. |
| Wildcards.PrintedTest | typ/expectations_parser.py:135-153 | Writing the test back fails exactly on a limited glob without a final `*`; a limited glob is written with a final `*`. |
| Wildcards.CheckWildcardPositions | typ/expectations_parser.py:543-549 | The scan succeeds exactly when no unescaped `*` appears before the last position. |
| Wildcards.CountEscapedStars | typ/expectations_parser.py:484-486 | `\*` count ≤ `*` count, with equality exactly when every star is escaped. |
| Wildcards.FullGlobIffUnescapedStar | typ/expectations_parser.py:481-486 | With full wildcard support, a pattern is a glob exactly when it has an unescaped star. |
| Wildcards.LimitedGlobShape | typ/expectations_parser.py:490-491 | A limited glob that passed the check has exactly one unescaped star, at its end. |
| Wildcards.LimitedNonGlobEscaped | typ/expectations_parser.py:490-491 | A limited non-glob that passed the check has every star escaped. |
| Wildcards.GlobIffUnescapedStar | typ/expectations_parser.py:472-491 | In either mode, a checked pattern is a glob exactly when it has an unescaped star. |
| Wildcards.UnescapeShortens | typ/expectations_parser.py:507 | Unescaping shortens the pattern by its number of `\*`. |
| Wildcards.EscapeUnescape | typ/expectations_parser.py:147-153 | Escaping undoes unescaping when every star was escaped. |
| Wildcards.PrintedTestRoundTrip | typ/expectations_parser.py:135-153 | Reading a checked pattern and writing it back gives the original text in either mode. |
| Wildcards.LiteralGlobMatch | typ/expectations_parser.py:786 | A pattern without unescaped stars matches exactly the name it spells. |
| DataLine.Match | typ/expectations_parser.py:271-279 | A matched line is the bug run followed by the tag block, test, results and comment. The run is a sequence of bug-group iterations, each with or without a subproject, and the last iteration ends it. |
| DataLine.MatchFrom | typ/expectations_parser.py:274 | A match found from a position is a run of bug-group iterations followed by fields that spell the rest of the line, and its last iteration is the one recorded; when the rest matches at the position itself, a match is found. |
| DataLine.MatchFromComplete | typ/expectations_parser.py:274-278 | The search misses no split: whenever some run of bug-group iterations is followed by a matching rest, a match is found. |
| DataLine.MatchComplete | typ/expectations_parser.py:274-279 | A line that is a run of bug references followed by a valid tag block, test, results and comment is matched. |
| DataLine.RestAt | typ/expectations_parser.py:275-278 | The fields after the bug run, when they match, spell the rest of the line. |
| DataLine.TaggedRest | typ/expectations_parser.py:275 | A tag block closed at a valid ` ] ` gives fields that spell the rest of the line. |
| DataLine.TagsEnd | typ/expectations_parser.py:275 | The ` ] ` found closes the tags and is followed by a matching test and result block. |
| DataLine.TagsEndLast | typ/expectations_parser.py:275 | It is the last such ` ] ` at or before `k`: every position that could close the tags is found or lies before the one found. |
| DataLine.TaggedRestComplete | typ/expectations_parser.py:275-279 | Whenever some ` ] ` can close a tag block, the rest of the line matches. |
| DataLine.TestSpan | typ/expectations_parser.py:276-277 | A test, a space and a result block start at the position. |
| DataLine.TestSpanComplete | typ/expectations_parser.py:276-279 | Whenever a test, a space, a result block and a comment follow the position, they are found, with the test ending at its first whitespace. |
| DataLine.UntaggedRestComplete | typ/expectations_parser.py:276-279 | Whenever a test and a result block follow the position, the rest of the line matches. |
| DataLine.TestEnd | typ/expectations_parser.py:276 | The test is whitespace-free and ends at a space. |
| DataLine.ResultsEnd | typ/expectations_parser.py:277-278 | The ` ]` found closes a result block free of `[` and `.`, and a valid comment follows it. |
| DataLine.ResultsEndLast | typ/expectations_parser.py:277-278 | It is the last such ` ]` at or before `k`: every position that could close the results is found or lies before the one found. |
| DataLine.BugEndWithSubproject | typ/expectations_parser.py:273-274 | An iteration with a subproject is a prefix, everything up to the next `/` (whitespace included), that `/`, digits and one whitespace character. |
| DataLine.BugEndPlain | typ/expectations_parser.py:273-274 | An iteration without a subproject is a prefix, digits and one whitespace character. |
| DataLine.SpacedSubprojectMatch | typ/expectations_parser.py:271-279 | `b/1 x/2 t [ Pass ]` is one iteration whose subproject `1 x` runs over a space; its reason, as written and corrected, is `b/1 x/2`. |
| DataLine.TestPassRest | typ/expectations_parser.py:276-278 | A line ending `t [ Pass ]` after the references has the test `t`, the results `Pass` and no tags or comment. |
| DataLine.TestFields | typ/expectations_parser.py:276-278 | The test, results and comment spell the line from the test on. |
| DataLine.Reason | typ/expectations_parser.py:527-530 | Corrected: the reason is the whole run of bug references, without its final whitespace. |
| DataLine.ReasonAsWritten | typ/expectations_parser.py:527-530 | As written: no bug reference gives no reason. |
| DataLine.ReasonAsWrittenIsPrefix | typ/expectations_parser.py:527-530 | As written, the reason is a proper prefix of the line that ends with the last bug reference. |
| DataLine.ReasonAsWrittenAtStart | typ/expectations_parser.py:527-530 | When the last reference's text also starts the line, the rebuilt reason is that reference alone. |
| DataLine.RepeatedBugLineMatch | typ/expectations_parser.py:271-279 | `b/12 b/3 b/1 t [ Pass ]` is read as two iterations, `b/12 b/3 ` (with the subproject `12 b`) and then `b/1 `, followed by the test `t` and the results `Pass`. |
| DataLine.ReasonAsWrittenLosesBug | typ/expectations_parser.py:527-530 | Counterexample: on `b/12 b/3 b/1 t [ Pass ]`, the last iteration is `b/1 `, whose text first occurs inside `b/12`, so the rebuilt reason is `b/1` while the run is `b/12 b/3 b/1`. |
| DataLine.StrippedBug | typ/expectations_parser.py:528-529 | A stripped reference is the reference without its whitespace, and `find` locates it at or before its position. |
| DataLine.BugRunShape | typ/expectations_parser.py:274 | A nonempty run starts with a prefix character and ends with a digit and one whitespace character. |
| ParserLines.InitialState | typ/expectations_parser.py:284-290 | The parser starts with no tag sets, no allowed results, no rules, the two directives off and the given conflict resolution. |
| ParserLines.RightBracket | typ/expectations_parser.py:383 | `find(']')` gives -1 or the index of a `]`. |
| ParserLines.RightBracketFirst | typ/expectations_parser.py:383 | It is -1 exactly when there is no `]`, and no `]` comes earlier. |
| ParserLines.HeaderWords | typ/expectations_parser.py:377-406 | A header's counted words, over continuation lines: every counted word is nonempty and free of whitespace, and a parse error is reported on a line of the header. |
| ParserLines.UnterminatedHeaderFails | typ/expectations_parser.py:388-397 | A header whose `]` never comes is an error. |
| ParserLines.UnterminatedAtEnd | typ/expectations_parser.py:388-391 | An unterminated header on the last line raises `IndexError`. |
| ParserLines.OneLineHeader | typ/expectations_parser.py:399-406 | A header closed on its own line counts the words between the token and `]`. |
| ParserLines.DeclareTags | typ/expectations_parser.py:357-364 | Declaring adds a tag set and maps each of its tags to the new declaration. Other tags keep their mapping. The tags already declared are returned. |
| ParserLines.HeaderDeclaration | typ/expectations_parser.py:349-375 | Repeated words are an error. A tag header declares its lowered words. A result header must name only known results, which it adds. |
| ParserLines.HeaderLine | typ/expectations_parser.py:332-375 | A header after the first rule is an error; otherwise its words are collected and declared. |
| ParserLines.HeaderKeepsRules | typ/expectations_parser.py:332-375 | A header keeps the rules and the directives, and it only adds declared tags and known results. |
| ParserLines.ConflictResolutionLine | typ/expectations_parser.py:408-420 | It is accepted exactly for `union`/`override` in any case, which sets the mode; otherwise the error names the value. |
| ParserLines.ConflictsAllowedLine | typ/expectations_parser.py:422-431 | It is accepted exactly for `true`/`false` in any case, which sets the flag; otherwise the error names the value. |
| ParserLines.FullWildcardSupportLine | typ/expectations_parser.py:433-441 | It is accepted exactly for `true`/`false` in any case, which sets the flag; otherwise the error names the value. |
| ParserLines.FirstUnknown | typ/expectations_parser.py:551-553 | The tag reported is the first undeclared one: it sits at a position where every tag before it is declared; none is reported exactly when all are declared. |
| ParserLines.TagSetIds | typ/expectations_parser.py:551-555 | The ids collected are exactly the tag sets of the tags. |
| ParserLines.TagSetIdsCount | typ/expectations_parser.py:557 | Comparing counts detects exactly two tags from one tag set. |
| ParserLines.GroupsSplitTags | typ/expectations_parser.py:558-565 | The groups in the error message split the tags by tag set, dropping and adding none. |
| ParserLines.StructureError | typ/expectations_parser.py:533-566 | Every structure error is a parse error on the data line. |
| ParserLines.StructureAccepted | typ/expectations_parser.py:533-566 | It passes exactly when the wildcards are well placed (or full support is on), every tag is declared and no two tags share a tag set. |
| ParserLines.RawResults | typ/expectations_parser.py:568-597 | Every rejection is a parse error on the data line. |
| ParserLines.KnownResultWord | typ/expectations_parser.py:41-43 | A known result is an outcome name, `RetryOnFailure` or `Slow`. |
| ParserLines.RawResultsAccepts | typ/expectations_parser.py:581-596 | It accepts exactly when every word is allowed and known. |
| ParserLines.RawResultsValue | typ/expectations_parser.py:586-592 | On acceptance, the outcomes are those named, and each flag is set exactly when its word occurs. |
| ParserLines.RawResultsError | typ/expectations_parser.py:582-596 | A rejection names a word that is not allowed or not known. |
| ParserLines.Rule | typ/expectations_parser.py:443-470 | Every rejection of a matched line is a parse error on that line. |
| ParserLines.RuleAccepts | typ/expectations_parser.py:448-450 | A matched line is accepted exactly when both the structure check and the result check pass. |
| ParserLines.RuleValue | typ/expectations_parser.py:443-470 | The rule holds the bug run, the lowered tags, the outcomes (or default `Pass`), the flags, the glob flag, the unescaped test, and the line's number, directives and comment. |
| ParserLines.ExpectationLine | typ/expectations_parser.py:443-470 | An unmatched line is a syntax error; a matched one gives the rule above, whose reason is the corrected `DataLine.Reason`. |
| ParserLines.AcceptedTags | typ/expectations_parser.py:443-448 | An accepted rule's tags are declared and come from distinct tag sets, and its test passed the wildcard check. |
| ParserLines.AcceptedResults | typ/expectations_parser.py:449-450 | An accepted rule's result words are allowed and known. Its flags follow their words. Its results are the outcomes named, or `Pass` when none is. |
| ParserLines.AcceptedLine | typ/expectations_parser.py:443-470 | An accepted rule carries its line number, the directives, the bug run, raw tags, comment, glob flag and unescaped test. |
| ParserLines.AcceptedRulePrints | typ/expectations_parser.py:135-164 | An accepted rule can be printed, and its test is written back as the line spelt it. |
| ParserLines.PrintedFields | typ/expectations_parser.py:157-164 | A printed rule is its reason and a space, then a tag block, test, result block and comment; the fields hold the sorted tags, the test written back, the printed results joined by spaces and the comments. |
| ParserLines.PrintedTagsReadBack | typ/expectations_parser.py:160-161 | The printed tags split back into the line's tags, sorted; lowered, they are the rule's tags in another order. |
| ParserLines.PrintedResultsReadBack | typ/expectations_parser.py:162-163 | The printed results split back into themselves: the line's result words, or `Pass` alone for a result block with no word. |
| ParserLines.PrintedReasonReadBack | typ/expectations_parser.py:157-158 | A printed reason is again a run ending in a space, and it is read back as the same reason. |
| ParserLines.PrintedStructureAccepted | typ/expectations_parser.py:443-448 | The printed test and tags pass the structure check again. |
| ParserLines.DistinctTagSetsPermutation | typ/expectations_parser.py:551-557 | Whether tags are declared and come from distinct tag sets does not depend on their order. |
| ParserLines.LowerAllSort | typ/expectations_parser.py:446-447 | Lowering the sorted tags gives the lowered tags in another order. |
| ParserLines.PrintedResultsAccepted | typ/expectations_parser.py:568-597 | The printed results pass the result check again, except `Pass` printed for a result block with no word, which passes only when it is declared; they name the same outcomes and flags. |
| ParserLines.PassAlone | typ/expectations_parser.py:568-597 | `Pass` alone passes the result check exactly when it is declared. |
| ParserLines.ResultWordsAgree | typ/expectations_parser.py:568-597 | Result words with the same members pass or fail the check together, with the same outcomes and flags. |
| ParserLines.RenderedRuleReadsBack | typ/expectations_parser.py:128-164 | Round trip: the fields of an accepted rule's printed line read back, on that line, as a rule equal to it with the same glob mode, conflict mode and wildcard mode; this fails only for a result block with no word when `Pass` is not declared. |
| ParserLines.RuleFromPrinted | typ/expectations_parser.py:443-470 | Fields that read back as a rule's reason, tags, test and printed results give a rule equal to it. |
| Parse.OneSharedTagWording | typ/expectations_parser.py:324-330 | One tag in two tag sets is named in the singular. |
| Parse.SharedTagsWording | typ/expectations_parser.py:324-330 | Several shared tags are named sorted, as an English list, in the plural. |
| Parse.Finish | typ/expectations_parser.py:323-330 | The file ends in error exactly when some tag is shared, and otherwise keeps the state. |
| Parse.LineStep | typ/expectations_parser.py:300-322 | The loop stops exactly at a data line once a tag is shared. Shared tags only grow. Only headers change shared tags or the first header line. |
| Parse.RunSharedFails | typ/expectations_parser.py:317-330 | Once a tag is shared, the run fails whatever follows. |
| Parse.SharedTagFails | typ/expectations_parser.py:317-330 | The parse from any line with a shared tag fails. |
| Parse.RunInduction | typ/expectations_parser.py:300-322 | A property that holds at the start and that each tag-sharing-free turn preserves holds of a successful run's result. |
| Parse.ConsistentSetsDisjoint | typ/expectations_parser.py:357-364 | Consistent tag sets are pairwise disjoint. |
| Parse.DeclareKeepsConsistent | typ/expectations_parser.py:357-364 | Declaring tags not yet declared keeps the sets consistent. |
| Parse.HeaderKeeps | typ/expectations_parser.py:332-375 | A header that shares no tag keeps the state consistent and the rules empty. |
| Parse.RuleKeeps | typ/expectations_parser.py:317-319 | Appending an accepted data line keeps the rules fitting the declarations and in file order. |
| Parse.AppendKeepsRules | typ/expectations_parser.py:318-319 | A fitting rule read on the current line keeps the rules fitting and ordered. |
| Parse.DirectiveKeeps | typ/expectations_parser.py:307-312 | A directive keeps the tag sets, the allowed results and the rules. |
| Parse.StepKeeps | typ/expectations_parser.py:300-322 | Each turn that shares no tag keeps the state consistent and the rules fitting. |
| Parse.StepsKeepInvariant | typ/expectations_parser.py:300-322 | The loop's invariant is preserved by every turn. |
| Parse.ParsedFileIsConsistent | typ/expectations_parser.py:295-330 | A parsed file has pairwise disjoint tag sets, and tags map to one id exactly when they share a set. Its rules are in file order, with declared tags from distinct sets and allowed, known results. |
| Parser.Prepend | typ/expectations_parser.py:389 | Counted words are added to those of the rest of the header, unless the rest raises. |
| Parser.PrependTwice | typ/expectations_parser.py:389 | Adding counts twice equals adding their sum. |
| Parser.HeaderWordsContinue | typ/expectations_parser.py:388-397 | A header line without `]` contributes its words, then the next `#` line's. |
| Parser.HeaderTurn | typ/expectations_parser.py:302-306 | A header's turn gives its error, or its state, its shared tags and the first header line. |
| Parser.DirectiveTurn | typ/expectations_parser.py:307-312 | A directive's turn gives its error or the state it sets. |
| Parser.CommentTurn | typ/expectations_parser.py:313-316 | A comment or blank line changes nothing. |
| Parser.DataTurn | typ/expectations_parser.py:317-321 | A data line stops the loop once a tag is shared; otherwise it appends its rule or raises its error. |
| Parser.TaggedTestListParser.Init | typ/expectations_parser.py:284-290 | The attributes start as `ParserLines.InitialState`. |
| Parser.TaggedTestListParser.FromRawData | typ/expectations_parser.py:281-293 | The constructor succeeds exactly when the file parses, and then holds the parse's state with consistent tag sets; otherwise it raises the parse's error. |
| Parser.TaggedTestListParser.ParseRawExpectationData | typ/expectations_parser.py:295-330 | The loop ends with the state or the error that `Parse.ParseFrom` computes. |
| Parser.TaggedTestListParser.ParseLine | typ/expectations_parser.py:300-322 | One turn does what `Parse.LineStep` says, and changes the attributes only when the loop continues. |
| Parser.TaggedTestListParser.ParseHeaderTokenLine | typ/expectations_parser.py:332-375 | The attributes change as `ParserLines.HeaderLine` says, and not at all on error. |
| Parser.TaggedTestListParser.GetTagCountsFromHeaderLine | typ/expectations_parser.py:377-406 | The loop counts the words `ParserLines.HeaderWords` describes, or raises its error. |
| Parser.TaggedTestListParser.ParseConflictResolutionLine | typ/expectations_parser.py:408-420 | It sets the mode as `ParserLines.ConflictResolutionLine` says, or raises. |
| Parser.TaggedTestListParser.ParseConflictsAllowedLine | typ/expectations_parser.py:422-431 | It sets the flag as `ParserLines.ConflictsAllowedLine` says, or raises. |
| Parser.TaggedTestListParser.ParseFullWildcardSupportLine | typ/expectations_parser.py:433-441 | It sets the flag as `ParserLines.FullWildcardSupportLine` says, or raises. |
| Ordering.SortByKey | typ/expectations_parser.py:702 | The sort is a permutation. |
| Ordering.SortByKeyDescending | typ/expectations_parser.py:702 | The sort orders by decreasing key. |
| Ordering.SortByKeyStable | typ/expectations_parser.py:702 | The sort is stable: elements with one key keep their order. |
| Ordering.SortDescendingIsIdentity | typ/expectations_parser.py:728-730 | Elements already in decreasing order are left as they are. |
| Ordering.InsertKeepsDescending | typ/expectations_parser.py:702 | Inserting into a descending list keeps it descending. |
| Buckets.Get | typ/expectations_parser.py:774 | A missing pattern gives no rules. |
| Buckets.GetBucket | typ/expectations_parser.py:784 | With distinct patterns, each bucket is what lookup finds under its pattern. |
| Buckets.ExtendGet | typ/expectations_parser.py:720 | `setdefault(k, []).extend` puts the new rules after the old ones under `k` and changes no other pattern. |
| Buckets.ExtendDistinct | typ/expectations_parser.py:720 | It keeps the patterns distinct. |
| Buckets.AddRulesGet | typ/expectations_parser.py:697 | Each pattern gets its rules appended in file order. |
| Buckets.AddRulesDistinct | typ/expectations_parser.py:697 | Appending keeps the patterns distinct. |
| Buckets.MergeBucketsGet | typ/expectations_parser.py:719-722 | Merging puts the other store's rules after this store's, pattern by pattern. |
| Buckets.MergeBucketsDistinct | typ/expectations_parser.py:719-722 | Merging keeps the patterns distinct. |
| Buckets.UpdateBucketsGet | typ/expectations_parser.py:854-855 | After `update`, a glob pattern has the glob rules and every other pattern its own. |
| Buckets.ReplaceGet | typ/expectations_parser.py:730 | Assigning a pattern changes only that pattern. |
| Buckets.SortBucketsKeeps | typ/expectations_parser.py:726-730 | Re-sorting keeps the patterns distinct and every pattern's rules. |
| Buckets.SortedBucketsLongestFirst | typ/expectations_parser.py:726-730 | Re-sorted buckets come longest pattern first. |
| Filing.Individual | typ/expectations_parser.py:693-697 | The rules filed by name are non-glob rules of the file. |
| Filing.Globs | typ/expectations_parser.py:692-695 | The rules set aside are glob rules of the file. |
| Filing.SplitKeepsEveryRule | typ/expectations_parser.py:692-697 | Every rule is filed exactly once, by name or as a glob: the two lists together are the file's rules. |
| Filing.RulesForSorted | typ/expectations_parser.py:702 | The length sort keeps each pattern's rules in file order. |
| Filing.FileGlobsKeeps | typ/expectations_parser.py:699-705 | Corrected filing keeps patterns distinct and longest first, filing each glob rule after the existing rules under its pattern. |
| Filing.AddSortedRulesLongestFirst | typ/expectations_parser.py:699-704 | Filing rules sorted longest first into an empty store gives buckets longest first. |
| Filing.FirstFileFilingsAgree | typ/expectations_parser.py:699-705 | For the first file, the filing as written and the corrected filing agree. |
| Filing.FiledTwiceAsWritten | typ/expectations_parser.py:703-704 | As written, a second file's new glob goes after the earlier ones. |
| Filing.FiledTwice | typ/expectations_parser.py:699-705 | The corrected filing puts the longer glob first. |
| Filing.FirstBucketDecides | typ/expectations_parser.py:784-798 | A covering glob bucket first in line, with a contributing rule, decides the lookup. |
| Filing.SecondFileAsWrittenMisordersGlobs | typ/expectations_parser.py:699-705 | Counterexample: after files with `a*` then `ab*`, the globs are no longer longest first and the shorter glob decides. The corrected filing lets the longer one decide. |
| Lookup.AsExpectation | typ/expectations_parser.py:969-988 | The rule built from merged data has its tags, flags and comments, and its reason is the merged reasons sorted and joined by spaces. It is a default pass expecting `{Pass}` exactly when no result was merged, and otherwise carries the merged results. |
| Lookup.MergeRulesAppend | typ/expectations_parser.py:774-775 | Merging two lists is merging one after the other. |
| Lookup.MergeRulesSkips | typ/expectations_parser.py:812-813 | Rules whose tags are not all in effect change nothing. |
| Lookup.UnionMergeCollects | typ/expectations_parser.py:815-824 | Under union, applying rules add non-default results, tags and reasons, and or their flags. |
| Lookup.OverrideLastWins | typ/expectations_parser.py:825-832 | The last applying override rule decides everything except accumulated reasons. |
| Lookup.MergeRulesData | typ/expectations_parser.py:963-967 | The merge carries data exactly when it did already or some rule contributes. |
| Lookup.ExactRulesWin | typ/expectations_parser.py:773-779 | A contributing rule filed under the test decides, and no glob is consulted. |
| Lookup.FirstDecidingGlobWins | typ/expectations_parser.py:781-798 | Otherwise the first deciding glob wins, merged with the earlier covering globs; with longest-first buckets, no longer glob decides. |
| Lookup.NothingContributesPasses | typ/expectations_parser.py:800-801 | With nothing contributing, the answer is the default pass. |
| Lookup.SearchReachesDecider | typ/expectations_parser.py:784-798 | The glob search stops at the first deciding bucket. |
| Lookup.SearchFindsNothing | typ/expectations_parser.py:784-801 | A search with no deciding bucket ends in the default pass. |
| Lookup.ExpectationForJustified | typ/expectations_parser.py:756-763 | Every answer's tags are in effect, and each result and flag comes from an applying rule filed under the test or a covering glob. |
| Checks.DefaultConflictIff | typ/expectations_parser.py:834-843 | With `_default_tags_conflict`, two rules conflict exactly when, in every tag set, one has no tag or both have the same tag. |
| Checks.RowLinesEmpty | typ/expectations_parser.py:858-868 | A row has no lines exactly when no later rule conflicts with its rule. |
| Checks.PairLinesEmpty | typ/expectations_parser.py:858-868 | The pair lines are empty exactly when every row is clear. |
| Checks.PatternReportEmpty | typ/expectations_parser.py:856-868 | A pattern's report is empty exactly when none of its pairs conflict. |
| Checks.ConflictReportEmpty | typ/expectations_parser.py:845-869 | The report is empty exactly when no two rules under one pattern conflict. |
| Checks.BrokenExpectations | typ/expectations_parser.py:871-895 | The check raises exactly in limited mode with an empty name. |
| Checks.BrokenIndividualRules | typ/expectations_parser.py:884-886 | A rule is reported as broken-individual exactly when it is filed under an unlisted name. |
| Checks.BrokenGlobRules | typ/expectations_parser.py:888-895 | A rule is reported as broken-glob exactly when it is filed under a broken glob. |
| Checks.TrieBrokenIffUncovered | typ/expectations_parser.py:909-928 | The trie walk marks a limited glob broken exactly when no listed name matches it at lookup. |
| Checks.UnknownTags | typ/expectations_parser.py:644-649 | The unknown tags are exactly the lowered given tags that are neither declared nor ignored; none are unknown when nothing is declared. |
| Store.MergedExpectationData.constructor | typ/expectations_parser.py:954-961 | A new object holds nothing merged. |
| Store.TestExpectations.constructor | typ/expectations_parser.py:601-617 | A new store has the lowered tags and the ignored tags, and nothing declared or filed. |
| Store.TestExpectations.ValidateConditionTags | typ/expectations_parser.py:632-660 | It raises exactly when asked and some tag is unknown, naming the unknown tags. |
| Store.TestExpectations.SetTags | typ/expectations_parser.py:619-621 | Unless validation raises, the tags in effect become the lowered ones; nothing else changes. |
| Store.TestExpectations.AddTags | typ/expectations_parser.py:623-626 | Unless validation raises, the tags gain the lowered new ones, each once; nothing else changes. |
| Store.TestExpectations.ParseTaggedList | typ/expectations_parser.py:662-712 | It records the file name and mode, then reports a parse error, raises, or takes the file in as `Ingested` describes. |
| Store.TestExpectations.Parse | typ/expectations_parser.py:669-675 | Running the parser gives `Parse.ParseAll`. |
| Store.TestExpectations.TakeIn | typ/expectations_parser.py:674-712 | A parse error is returned as `(1, message)` with no filing; otherwise the file is taken in. |
| Store.TestExpectations.Ingest | typ/expectations_parser.py:676-712 | A different tag set raises `RuntimeError`. Otherwise the store adopts the file's sets and directives, files its rules and returns the conflict report unless conflicts are allowed. |
| Store.TestExpectations.FileRules | typ/expectations_parser.py:692-705 | Non-glob rules are appended by name. Glob rules are sorted longest first and appended as the source does, then the buckets are re-sorted longest first (the corrected `Filing.FileGlobs`). |
| Store.TestExpectations.SplitRules | typ/expectations_parser.py:692-697 | The first loop files non-glob rules and sets the glob rules aside in order. |
| Store.TestExpectations.AppendRules | typ/expectations_parser.py:697 | The loop appends each rule under its test. |
| Store.TestExpectations.MergeTestExpectations | typ/expectations_parser.py:714-730 | The other store's lowered tags join this store's, each once. Its rules go after this store's, pattern by pattern, and the globs are re-sorted longest first. Nothing else changes. |
| Store.TestExpectations.MergeGlobs | typ/expectations_parser.py:721-730 | The merged globs come re-sorted, with distinct patterns, longest first. |
| Store.TestExpectations.MergeInto | typ/expectations_parser.py:719-722 | The loop gives `Buckets.MergeBuckets`. |
| Store.TestExpectations.MaybeMergeExpectationData | typ/expectations_parser.py:803-832 | The merged object changes as `Lookup.MergeRule` says for the tags in effect. |
| Store.TestExpectations.MergeUnion | typ/expectations_parser.py:815-824 | Union accumulates results (unless default pass), reasons, tags and comments, and ors the flags. |
| Store.TestExpectations.MergeAll | typ/expectations_parser.py:774-775 | The loop merges every rule in order. |
| Store.TestExpectations.ExpectationsFor | typ/expectations_parser.py:747-801 | The answer is `Lookup.ExpectationFor` of the store's buckets and tags. |
| Store.TestExpectations.TagSetsConflict | typ/expectations_parser.py:834-843 | The nested search gives `Checks.TagSetsConflict`. |
| Store.TestExpectations.CheckTestExpectationsPatternsForConflicts | typ/expectations_parser.py:845-869 | The report is `Checks.ConflictReport` over the merged pattern dictionary. |
| Store.TestExpectations.PatternConflicts | typ/expectations_parser.py:856-868 | One pattern's part of the report is `Checks.PatternReport`. |
| Store.TestExpectations.NextRow | typ/expectations_parser.py:858-868 | One row of pairs keeps the report invariant. |
| Store.TestExpectations.AddRow | typ/expectations_parser.py:860-868 | A row's lines extend the report, with the header before the first line. |
| Store.TestExpectations.RowConflicts | typ/expectations_parser.py:858-868 | A row lists the later rules that conflict with its rule, in order. |
| Store.TestExpectations.CheckForBrokenExpectations | typ/expectations_parser.py:871-895 | The result is `Checks.BrokenExpectations` over the listed names. |
| Store.TestExpectations.CheckForBrokenGlobExpectationsSimple | typ/expectations_parser.py:897-929 | An empty name raises `IndexError`; otherwise the broken limited globs' rules are returned. |
| Store.TestExpectations.WalkTrie | typ/expectations_parser.py:920-928 | A walk falls off the trie exactly for a broken limited glob. |
| Store.TestExpectations.CheckForBrokenGlobExpectationsFull | typ/expectations_parser.py:931-950 | The result is the rules of globs no name matches. |
| Store.TestExpectations.AnyNameMatches | typ/expectations_parser.py:944-949 | The loop finds a match exactly when the glob is not broken. |
| Store.TriePathsAdd | typ/expectations_parser.py:912-916 | Adding a name adds that name's prefixes, with its NUL ending. |
| Store.TriePathsPrefixClosed | typ/expectations_parser.py:912-916 | The trie holds every nonempty prefix of its paths. |

## Left out

- The reduced-glob cache (`_maybe_cache_reduced_glob`) is not modelled. Full-wildcard matching is `Wildcards.GlobMatch`: `*` matches any run and `\*` a literal star. The `KeyError` from mixing wildcard modes across files is not modelled.
- `encode_func`/`decode_func` are left out (treated as the identity). Equality does not compare them.
- `logging.warning` is not modelled; a non-raising `validate_condition_tags` returns nothing.
- Store.TestExpectations.AddTags: the order of the new tag list (a Python set turned into a list) is not modelled; only membership and no duplicates are.
- The `RuntimeError` and `ValueError` messages are not modelled as text. `UnknownTagsError` carries the unknown tags, and `Checks.UnknownTagsMessage` renders them.
- Parser.TaggedTestListParser.ParseRawExpectationData: after an error, its state is left unspecified. The object is discarded then.
- Lines are stripped once up front rather than per read; header continuations are stripped too, so this changes nothing.
- The `MATCHER` regular expression is written as the search `DataLine.MatchFrom` makes, not as a general regex engine; only this one pattern is modelled.
- DataLine.MatchFrom: which match is found when several exist (more bug-group iterations first, the subproject alternative before the plain one) is the order of the search in its body; it is not proved against an independent semantics of regular expressions. That a match is found whenever one exists is proved (`DataLine.MatchFromComplete`).
- ParserLines.MessageText: the unknown-results message lists the header's results and the valid results in sorted order; the source joins two Python sets, whose order depends on string hashing.
- Python's `id()` of a tag set is a declaration counter: distinct per declaration, equal within one.
- Text.Lower: `lower()` lowers ASCII letters only; Python also lowers other Unicode letters.
- Text.UpperChar: `upper()`, used by `Expectations.Capitalize` for tags with no raw spelling, raises ASCII letters only.
- DataLine.IsDigit: the pattern's `\d` is taken as `0`-`9` and `\s` as `Text.IsSpace`; Python's `re` on `str` also accepts other Unicode digits and spaces.
- Store.TestExpectations.constructor: `file_name` starts as `""`. In Python it does not exist until `parse_tagged_list` runs.
- The `Lookup` lemmas assume every rule has results, which `Expectation.__init__` guarantees.
- Store.TestExpectations.PatternConflicts: it builds each row of pair lines, then appends it. The report text is the same.
- `Expectation` is an immutable datatype. `add_expectations` and the `test` setter return a new value, so aliasing of a mutated rule is not captured.
- Python's `assert` in `to_string` is modelled as an error value (`Err(GlobWithoutTrailingAsterisk)`).
- `merge_test_expectations` does not compare tag sets, and the model follows that.

- Store.TestExpectations.FileRules: glob rules are filed by the corrected `Filing.FileGlobs`, which re-sorts the buckets longest first after the append; the source only appends (`Filing.FileGlobsAsWritten`). The two agree on the first file (`Filing.FirstFileFilingsAgree`) and can differ from the second file on (see Findings).
- Store.TestExpectations.ParseTaggedList: files glob rules through the corrected `Filing.FileGlobs`, as `FileRules` does.
- Store.TestExpectations.TakeIn: files glob rules through the corrected `Filing.FileGlobs`, as `FileRules` does.
- Store.TestExpectations.Ingest: files glob rules through the corrected `Filing.FileGlobs`, as `FileRules` does.
- ParserLines.Rule: the rule's reason is the corrected `DataLine.Reason`, the whole run of bug references; the source rebuilds it as `DataLine.ReasonAsWritten`, which differs when the last reference's text first occurs earlier on the line (see Findings).
- ParserLines.RuleValue: states the corrected reason, as `ParserLines.Rule` computes it.
- ParserLines.AcceptedLine: states the corrected reason, as `ParserLines.Rule` computes it.
- ParserLines.ExpectationLine: gives the corrected reason, as `ParserLines.Rule` computes it.
- Expectations.ToString: reading a printed rule back is proved field by field (`ParserLines.RenderedRuleReadsBack`): the printer's fields are read as `DataLine.Match` would read them. That whole printed lines are split the same way again is not proved, and the source does not promise it. Tags are printed with single spaces, so tag text that itself looks like a bug reference followed by ` [ ` can be split differently once printed: for instance `b/1 [ X/2  [ a ] t [ Pass ]`, printed as `b/1 [ X/2 [ a ] t [ Pass ]`.
- Expectations.ToString: a result block holding only whitespace gives a rule with no printed results, which prints as `[ Pass ]`; `ParserLines.RenderedRuleReadsBack` states that this reads back only when `Pass` is a declared result.

## Findings

| source | as written | input that shows it | evidently intended | confidence | as-written member | corrected member |
|---|---|---|---|---|---|---|
| typ/expectations_parser.py:527-530 | The reason becomes `line[:line.find(last)] + last`, where `last` is the last iteration of the bug group, stripped. | `b/12 b/3 b/1 t [ Pass ]`: the last iteration is `b/1 `, and `b/1` first occurs inside `b/12`, so the reason is `b/1` and loses `b/12 b/3`. | The reason is the whole run of bug references (`b/12 b/3 b/1`). | not executed | DataLine.ReasonAsWrittenLosesBug | DataLine.Reason |
| typ/expectations_parser.py:166-172 | When results grow, `_raw_results` is rebuilt from outcomes only. | A rule read from `[ Failure Slow ]`, then given `Timeout`: its printed results no longer include `Slow`, though the rule is still slow. | Rebuilt printed results keep `Slow` and `RetryOnFailure` when their flags are set. | not executed | Expectations.AddExpectationsAsWrittenDropsSlow | Expectations.AddExpectationsPrintsItsResults |
| typ/expectations_parser.py:699-705 | Only the new file's globs are sorted; new patterns go after existing ones. | First file `a* [ Failure ]`, second file `ab* [ Skip ]`, test `abc`: the shorter `a*` decides. | Globs stay longest first across files (as `merge_test_expectations` re-sorts), so `ab*` decides. | not executed | Filing.SecondFileAsWrittenMisordersGlobs | Filing.FileGlobsKeeps |

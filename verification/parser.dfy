/**
 * `TaggedTestListParser` (typ/expectations_parser.py) as an object whose attributes the parse
 * updates line by line. Each method is proved to do to the attributes what the functions of
 * `ParserLines` and `Parse` say its line does to a `ParserState`, so that what `Parse` proves
 * about a parsed file holds of the object.
 */
module Parser {
  import opened Wrappers
  import opened Text
  import opened Expectations
  import opened ParserLines
  import opened Parse

  /** Counted words in front of the words of the rest of a header, unless the rest raises. */
  function Prepend(counts: multiset<string>, r: Result<multiset<string>, Failure>): (p: Result<multiset<string>, Failure>)
    ensures r.Err? ==> p == r
    ensures r.Ok? ==> p.Ok? && forall w :: p.value[w] == counts[w] + r.value[w]
  {
    if r.Err? then r else Ok(counts + r.value)
  }

  lemma PrependNothing(r: Result<multiset<string>, Failure>)
    ensures Prepend(multiset{}, r) == r
  {
    if r.Ok? {
      assert multiset{} + r.value == r.value;
    }
  }

  lemma PrependTwice(a: multiset<string>, b: multiset<string>, r: Result<multiset<string>, Failure>)
    ensures Prepend(a, Prepend(b, r)) == Prepend(a + b, r)
  {
    if r.Ok? {
      assert a + (b + r.value) == (a + b) + r.value;
    }
  }

  /** A header line without `]` followed by a line starting with `#`: its words, then the next line's. */
  lemma HeaderWordsContinue(lines: seq<string>, lineno: nat, line: string, prefix: nat)
    requires 1 <= lineno < |lines| && RightBracket(line) == -1 && lines[lineno] != [] && lines[lineno][0] == '#'
    ensures HeaderWords(lines, lineno, line, prefix)
      == Prepend(multiset(Split(Drop(line, prefix))), HeaderWords(lines, lineno + 1, lines[lineno], 1))
  {
  }

  /** A header line's turn: what the header raises, or its state and shared tags. */
  lemma HeaderTurn(lines: seq<string>, lineno: nat, st: ParserState, shared: set<string>, firstHeader: nat)
    requires 1 <= lineno <= |lines| && IsHeader(lines[lineno - 1])
    ensures var h := HeaderLine(st, lines, lineno, lines[lineno - 1]);
      LineStep(lines, lineno, st, shared, firstHeader)
      == if h.Err? then Failed(h.error) else Next(h.value.0, shared + h.value.1, if firstHeader == 0 then lineno else firstHeader)
  {
  }

  /** A directive's turn: what the directive raises, or the state it sets. */
  lemma DirectiveTurn(lines: seq<string>, lineno: nat, st: ParserState, shared: set<string>, firstHeader: nat)
    requires 1 <= lineno <= |lines| && !IsHeader(lines[lineno - 1]) && IsDirective(lines[lineno - 1])
    ensures var line := lines[lineno - 1];
      var d := if StartsWith(line, ConflictResolutionToken) then ConflictResolutionLine(st, lineno, line)
        else if StartsWith(line, ConflictsAllowedToken) then ConflictsAllowedLine(st, lineno, line)
        else FullWildcardSupportLine(st, lineno, line);
      LineStep(lines, lineno, st, shared, firstHeader) == if d.Err? then Failed(d.error) else Next(d.value, shared, firstHeader)
  {
  }

  /** A comment's or a blank line's turn changes nothing. */
  lemma CommentTurn(lines: seq<string>, lineno: nat, st: ParserState, shared: set<string>, firstHeader: nat)
    requires 1 <= lineno <= |lines| && !IsHeader(lines[lineno - 1]) && !IsDirective(lines[lineno - 1])
    requires IsComment(lines[lineno - 1])
    ensures LineStep(lines, lineno, st, shared, firstHeader) == Next(st, shared, firstHeader)
  {
  }

  /** A data line's turn: the rule it adds, what it raises, or the stop once a tag is shared. */
  lemma DataTurn(lines: seq<string>, lineno: nat, st: ParserState, shared: set<string>, firstHeader: nat)
    requires 1 <= lineno <= |lines| && IsDataLine(lines[lineno - 1])
    ensures var e := ExpectationLine(st, lineno, lines[lineno - 1]);
      LineStep(lines, lineno, st, shared, firstHeader)
      == if shared != {} then Stop
         else if e.Err? then Failed(e.error)
         else Next(st.(expectations := st.expectations + [e.value]), shared, firstHeader)
  {
  }

  class TaggedTestListParser {
    var tagSets: set<set<string>>
    var tagToTagSet: map<string, nat>
    var declarations: nat
    var allowedResults: set<string>
    var conflictResolution: ConflictResolution
    var conflictsAllowed: bool
    var fullWildcardSupport: bool
    var expectations: seq<Expectation>

    /** The attributes, as the value the functions of `ParserLines` read and return. */
    function State(): ParserState
      reads this
    {
      ParserState(tagSets, tagToTagSet, declarations, allowedResults, conflictResolution,
                  conflictsAllowed, fullWildcardSupport, expectations)
    }

    /** The attributes `__init__` sets before it parses. */
    constructor Init(conflictResolution: ConflictResolution)
      ensures State() == InitialState(conflictResolution)
    {
      tagSets := {};
      this.conflictsAllowed := false;
      this.fullWildcardSupport := false;
      expectations := [];
      allowedResults := {};
      tagToTagSet := map[];
      declarations := 0;
      this.conflictResolution := conflictResolution;
    }

    /**
     * `TaggedTestListParser(raw_data, conflict_resolution)`: a parser that read the whole file,
     * or what reading it raises. A parser it returns declares consistent tag sets.
     */
    static method FromRawData(rawData: string, conflictResolution: ConflictResolution)
      returns (r: Result<TaggedTestListParser, Failure>)
      ensures var p := ParseAll(rawData, conflictResolution);
        (r.Ok? <==> p.Ok?)
        && (r.Ok? ==> fresh(r.value) && r.value.State() == p.value && StateConsistent(r.value.State()))
        && (p.Err? ==> r == Err(p.error))
    {
      var parser := new TaggedTestListParser.Init(conflictResolution);
      var error := parser.ParseRawExpectationData(rawData);
      if error.Some? {
        return Err(error.value);
      }
      ParsedFileIsConsistent(rawData, conflictResolution);
      return Ok(parser);
    }

    /**
     * `_parse_raw_expectation_data`: reads the lines in order until the end of the file, or
     * until a data line once a tag is declared in two tag sets, which is then reported at the
     * first header. On success the attributes are what `ParseFrom` computes from the old ones;
     * otherwise the error is the one it reports.
     */
    method ParseRawExpectationData(rawData: string) returns (error: Option<Failure>)
      modifies this
      ensures var r := ParseFrom(StrippedLines(rawData), 1, old(State()), {}, 0);
        (r.Ok? ==> error.None? && State() == r.value) && (r.Err? ==> error == Some(r.error))
    {
      var allLines := StrippedLines(rawData);
      var lineno := 1;
      var tagSetsIntersection: set<string> := {};
      var firstTagLine := 0;
      while lineno <= |allLines|
        invariant 1 <= lineno <= |allLines| + 1
        invariant ParseFrom(allLines, lineno, State(), tagSetsIntersection, firstTagLine)
          == ParseFrom(allLines, 1, old(State()), {}, 0)
        decreases |allLines| + 1 - lineno
      {
        ghost var before := State();
        var s := ParseLine(allLines, lineno, tagSetsIntersection, firstTagLine);
        assert StepOf(allLines)(lineno, before, tagSetsIntersection, firstTagLine) == s;
        if s.Failed? {
          return Some(s.error);
        }
        if s.Stop? {
          break;
        }
        tagSetsIntersection := s.shared;
        firstTagLine := s.firstHeader;
        lineno := lineno + 1;
      }
      if tagSetsIntersection != {} {
        return Some(ParseError(firstTagLine, MultipleTagSets(tagSetsIntersection)));
      }
      return None;
    }

    /**
     * The body of the parse loop on line `lineno`: a header, a directive, a comment or blank
     * line, or a data line, which is parsed and appended unless a tag is already shared.
     * The step returned is the one `LineStep` describes, and the attributes change only when
     * the loop goes on.
     */
    method ParseLine(allLines: seq<string>, lineno: nat, shared: set<string>, firstTagLine: nat) returns (s: Step)
      requires 1 <= lineno <= |allLines|
      modifies this
      ensures var t := LineStep(allLines, lineno, old(State()), shared, firstTagLine);
        s == t && (t.Next? ==> State() == t.st) && (!t.Next? ==> State() == old(State()))
    {
      var line := allLines[lineno - 1];
      if StartsWith(line, TagToken) || StartsWith(line, ResultToken) {
        HeaderTurn(allLines, lineno, State(), shared, firstTagLine);
        var first := if firstTagLine == 0 then lineno else firstTagLine;
        var found := ParseHeaderTokenLine(lineno, line, allLines);
        if found.Err? {
          return Failed(found.error);
        }
        return Next(State(), shared + found.value, first);
      }
      if StartsWith(line, ConflictResolutionToken) || StartsWith(line, ConflictsAllowedToken)
         || StartsWith(line, FullWildcardSupportToken) {
        DirectiveTurn(allLines, lineno, State(), shared, firstTagLine);
        var error;
        if StartsWith(line, ConflictResolutionToken) {
          error := ParseConflictResolutionLine(lineno, line);
        } else if StartsWith(line, ConflictsAllowedToken) {
          error := ParseConflictsAllowedLine(lineno, line);
        } else {
          error := ParseFullWildcardSupportLine(lineno, line);
        }
        if error.Some? {
          return Failed(error.value);
        }
        return Next(State(), shared, firstTagLine);
      }
      if StartsWith(line, "#") || line == [] {
        CommentTurn(allLines, lineno, State(), shared, firstTagLine);
        return Next(State(), shared, firstTagLine);
      }
      DataTurn(allLines, lineno, State(), shared, firstTagLine);
      if shared != {} {
        return Stop;
      }
      var e := ExpectationLine(State(), lineno, line);
      if e.Err? {
        return Failed(e.error);
      }
      expectations := expectations + [e.value];
      return Next(State(), shared, firstTagLine);
    }

    /**
     * `_parse_header_token_line`: no header once a rule has been read; the header's words are
     * counted, must not repeat, and are declared as a tag set (lower-cased) or added to the
     * allowed results. Returns the declared tags that an earlier tag set already holds.
     */
    method ParseHeaderTokenLine(lineno: nat, line: string, allLines: seq<string>) returns (r: Result<set<string>, Failure>)
      requires 1 <= lineno <= |allLines|
      modifies this
      ensures var h := HeaderLine(old(State()), allLines, lineno, line);
        (h.Ok? ==> r == Ok(h.value.1) && State() == h.value.0)
        && (h.Err? ==> r == Err(h.error) && State() == old(State()))
    {
      if expectations != [] {
        return Err(ParseError(lineno, TagAfterExpectation));
      }
      ghost var st := State();
      var token := if StartsWith(line, TagToken) then TagToken else ResultToken;
      var tagCounts := GetTagCountsFromHeaderLine(lineno, line, allLines, token);
      if tagCounts.Err? {
        return Err(tagCounts.error);
      }
      ghost var declared := HeaderDeclaration(st, lineno, token == TagToken, tagCounts.value);
      assert HeaderLine(st, allLines, lineno, line) == declared;
      var tagSet := WordSet(tagCounts.value);
      var duplicateTags := Duplicates(tagCounts.value);
      if duplicateTags != {} {
        return Err(ParseError(lineno, DuplicateTags(duplicateTags)));
      }
      if token == TagToken {
        var lowered := LoweredSet(tagSet);
        var intersection := lowered * tagToTagSet.Keys;
        tagSets := tagSets + {lowered};
        tagToTagSet := MapTags(tagToTagSet, lowered, declarations);
        declarations := declarations + 1;
        assert declared == Ok(DeclareTags(st, lowered));
        assert DeclareTags(st, lowered).0 == State();
        return Ok(intersection);
      }
      if !(tagSet <= ValidResultTags) {
        return Err(ParseError(lineno, UnknownResults(tagSet)));
      }
      allowedResults := allowedResults + tagSet;
      return Ok({});
    }

    /**
     * `_get_tag_counts_from_header_line`: the words of a header that starts on line `lineno`,
     * counted, over the following lines until one holds `]`; each continuation line must start
     * with `#`, and nothing may follow the `]`.
     */
    method GetTagCountsFromHeaderLine(lineno: nat, line: string, allLines: seq<string>, token: string)
      returns (r: Result<multiset<string>, Failure>)
      requires 1 <= lineno <= |allLines|
      ensures r == HeaderWords(allLines, lineno, line, |token|)
    {
      var n := lineno;
      var current := line;
      var rightBracket := RightBracket(current);
      var prefixSize: nat := |token|;
      var tagCounts: multiset<string> := multiset{};
      PrependNothing(HeaderWords(allLines, lineno, line, |token|));
      while n <= |allLines| && rightBracket == -1
        invariant 1 <= n <= |allLines| && rightBracket == RightBracket(current)
        invariant HeaderWords(allLines, lineno, line, |token|)
          == Prepend(tagCounts, HeaderWords(allLines, n, current, prefixSize))
        decreases |allLines| - n
      {
        ghost var counted := tagCounts;
        tagCounts := tagCounts + multiset(Split(Drop(current, prefixSize)));
        if n == |allLines| {
          return Err(IndexError);
        }
        n := n + 1;
        ghost var previous := current;
        current := allLines[n - 1];
        if current == [] {
          return Err(IndexError);
        }
        if current[0] != '#' {
          return Err(ParseError(n, MissingHash));
        }
        HeaderWordsContinue(allLines, n - 1, previous, prefixSize);
        PrependTwice(counted, multiset(Split(Drop(previous, prefixSize))), HeaderWords(allLines, n, current, 1));
        prefixSize := 1;
        rightBracket := RightBracket(current);
      }
      if rightBracket + 1 < |current| {
        return Err(ParseError(n, TextAfterBracket));
      }
      tagCounts := tagCounts + multiset(Split(current[Min(prefixSize, rightBracket)..rightBracket]));
      return Ok(tagCounts);
    }

    /** `_parse_conflict_resolution_line`: `union` or `override`, in any case. */
    method ParseConflictResolutionLine(lineno: nat, line: string) returns (error: Option<Failure>)
      modifies this
      ensures var d := ConflictResolutionLine(old(State()), lineno, line);
        (d.Ok? ==> error.None? && State() == d.value)
        && (d.Err? ==> error == Some(d.error) && State() == old(State()))
    {
      var value := Lower(Drop(line, |ConflictResolutionToken|));
      if value != "union" && value != "override" {
        return Some(ParseError(lineno, UnrecognizedValue(ConflictResolutionDirective, value)));
      }
      if value == "union" {
        conflictResolution := Union;
      } else {
        conflictResolution := Override;
      }
      return None;
    }

    /** `_parse_conflicts_allowed_line`: `true` or `false`, in any case. */
    method ParseConflictsAllowedLine(lineno: nat, line: string) returns (error: Option<Failure>)
      modifies this
      ensures var d := ConflictsAllowedLine(old(State()), lineno, line);
        (d.Ok? ==> error.None? && State() == d.value)
        && (d.Err? ==> error == Some(d.error) && State() == old(State()))
    {
      var boolValue := Lower(Drop(line, |ConflictsAllowedToken|));
      if boolValue != "true" && boolValue != "false" {
        return Some(ParseError(lineno, UnrecognizedValue(ConflictsAllowedDirective, boolValue)));
      }
      conflictsAllowed := boolValue == "true";
      return None;
    }

    /** `_parse_full_wildcard_support_line`: `true` or `false`, in any case. */
    method ParseFullWildcardSupportLine(lineno: nat, line: string) returns (error: Option<Failure>)
      modifies this
      ensures var d := FullWildcardSupportLine(old(State()), lineno, line);
        (d.Ok? ==> error.None? && State() == d.value)
        && (d.Err? ==> error == Some(d.error) && State() == old(State()))
    {
      var boolValue := Lower(Drop(line, |FullWildcardSupportToken|));
      if boolValue != "true" && boolValue != "false" {
        return Some(ParseError(lineno, UnrecognizedValue(FullWildcardSupportDirective, boolValue)));
      }
      fullWildcardSupport := boolValue == "true";
      return None;
    }
  }
}

/**
 * What `TaggedTestListParser` (typ/expectations_parser.py) does with each kind of line of an
 * expectations file: `# tags: [` and `# results: [` headers, the three directives, and data
 * lines. Every function here reads a parser state and returns either what the line contributes
 * or the error the parser raises for it.
 */
module ParserLines {
  import opened Wrappers
  import opened Text
  import opened Wildcards
  import opened Expectations
  import opened DataLine

  const TagToken := "# tags: ["
  const ResultToken := "# results: ["
  const ConflictResolutionToken := "# conflict_resolution: "
  const ConflictsAllowedToken := "# conflicts_allowed: "
  const FullWildcardSupportToken := "# full_wildcard_support: "

  /**
   * What parsing raises: `ParseError(lineno, msg)` (whose text is `"%d: %s"`), or the
   * `IndexError` the parser runs into on an unterminated multi-line header.
   */
  datatype Failure = ParseError(lineno: int, msg: Message) | IndexError

  /** The directives, as their error messages name them. */
  datatype Directive = ConflictResolutionDirective | ConflictsAllowedDirective | FullWildcardSupportDirective

  /** The reason a `ParseError` gives; `MessageText` words it as the parser does. */
  datatype Message =
    | MissingHash
    | TextAfterBracket
    | DuplicateTags(duplicates: set<string>)
    | UnknownResults(tagSet: set<string>)
    | TagAfterExpectation
    | UnrecognizedValue(directive: Directive, value: string)
    | InvalidGlob
    | UnknownTag(tag: string)
    | SameTagSet(groups: seq<Group>)
    | UnknownResult(result: string)
    | SyntaxError(line: string)
    | MultipleTagSets(shared: set<string>)

  /** The text of each message. */
  function MessageText(m: Message): string {
    match m
    case MissingHash => "Multi-line tag set missing leading \"#\""
    case TextAfterBracket => "Nothing is allowed after a closing tag bracket"
    case DuplicateTags(duplicates) => "duplicate tag(s): " + Join(SortedSet(duplicates), ", ")
    case UnknownResults(tagSet) =>
      "Result tag set [" + Join(SortedSet(tagSet), ", ") + "] contains values not in the list of known values ["
      + Join(SortedSet(ValidResultTags), ", ") + "]"
    case TagAfterExpectation => "Tag found after first expectation."
    case UnrecognizedValue(directive, value) =>
      "Unrecognized value '" + value + "' given for "
      + (match directive
         case ConflictResolutionDirective => "conflict_resolutiondescriptor"
         case ConflictsAllowedDirective => "conflicts_allowed descriptor"
         case FullWildcardSupportDirective => "full_wildcard_support descriptor")
    case InvalidGlob => "Invalid glob, '*' can only be at the end of the pattern"
    case UnknownTag(tag) => "Unknown tag \"" + tag + "\""
    case SameTagSet(groups) => "The tag group contains tags that are part of the same tag set" + GroupLines(groups)
    case UnknownResult(result) => "Unknown result type \"" + result + "\""
    case SyntaxError(line) => "Syntax error: " + line
    case MultipleTagSets(shared) =>
      var many := |shared| > 1;
      Wording(if many then "tags" else "tag", GroupToString(SortedSet(shared)), if many then "were" else "was")
  }

  function Wording(noun: string, names: string, verb: string): string {
    "The " + noun + " " + names + " " + verb + " found in multiple tag sets"
  }

  /**
   * The attributes of a parser. A tag set's `id()` is replaced by the number of tag
   * declarations read before it, which `declarations` counts.
   */
  datatype ParserState = ParserState(
    tagSets: set<set<string>>,
    tagToTagSet: map<string, nat>,
    declarations: nat,
    allowedResults: set<string>,
    conflictResolution: ConflictResolution,
    conflictsAllowed: bool,
    fullWildcardSupport: bool,
    expectations: seq<Expectation>)

  /** The state `__init__` sets up before reading the first line. */
  function InitialState(conflictResolution: ConflictResolution): (st: ParserState)
    ensures st.tagSets == {} && st.tagToTagSet == map[] && st.allowedResults == {}
    ensures st.expectations == [] && !st.conflictsAllowed && !st.fullWildcardSupport
    ensures st.conflictResolution == conflictResolution
  {
    ParserState({}, map[], 0, {}, conflictResolution, false, false, [])
  }

  /** Python's `s[n:]`. */
  function Drop(s: string, n: nat): (r: string)
    ensures |r| <= |s|
  {
    if n <= |s| then s[n..] else []
  }

  function Min(a: nat, b: nat): nat {
    if a <= b then a else b
  }

  /** Every word is non-empty and free of whitespace. */
  predicate Words(ws: multiset<string>) {
    forall w | w in ws :: w != [] && NoSpace(w)
  }

  lemma SplitWords(s: string)
    ensures Words(multiset(Split(s)))
  {
    forall w | w in multiset(Split(s)) ensures w != [] && NoSpace(w) {
      assert w in Split(s);
    }
  }

  // ---------------------------------------------------------------- headers


  /** The first `]` of `line` from index `i` on, or -1. */
  function RightBracketFrom(line: string, i: nat): (r: int)
    requires i <= |line|
    ensures r == -1 || (i <= r < |line| && line[r] == ']')
    decreases |line| - i
  {
    if i == |line| then -1
    else if line[i] == ']' then i
    else RightBracketFrom(line, i + 1)
  }

  /** `line.find(']')`: the index of a `]` of the line, or -1. */
  function RightBracket(line: string): (r: int)
    ensures -1 <= r < |line| && (r >= 0 ==> line[r] == ']')
  {
    RightBracketFrom(line, 0)
  }

  /** No `]` comes before the one found from `i`, and there is none from `i` when -1 is found. */
  lemma {:induction false} RightBracketFromFirst(line: string, i: nat)
    requires i <= |line|
    ensures var r := RightBracketFrom(line, i);
      forall j | i <= j < |line| && (r == -1 || j < r) :: line[j] != ']'
    decreases |line| - i
  {
    if i < |line| && line[i] != ']' {
      RightBracketFromFirst(line, i + 1);
    }
  }

  /** `RightBracket` finds the first `]`: -1 exactly when the line holds none. */
  lemma RightBracketFirst(line: string)
    ensures var r := RightBracket(line);
      (r == -1 <==> forall j | 0 <= j < |line| :: line[j] != ']')
      && forall j | 0 <= j < r :: line[j] != ']'
  {
    RightBracketFromFirst(line, 0);
  }

  /**
   * The words of a header (`_get_tag_counts_from_header_line`), counted: `lines` are the
   * file's lines, stripped, `line` is line `lineno`, and its first `prefix` characters are skipped. Until a line
   * holds `]`, the next line must start with `#` and contributes from its second character on;
   * nothing may follow the `]`.
   */
  function HeaderWords(lines: seq<string>, lineno: nat, line: string, prefix: nat): (r: Result<multiset<string>, Failure>)
    requires 1 <= lineno <= |lines|
    ensures r.Err? && r.error.ParseError? ==> lineno <= r.error.lineno <= |lines|
    ensures r.Ok? ==> Words(r.value)
    decreases |lines| - lineno
  {
    var rightBracket := RightBracket(line);
    if rightBracket == -1 then
      if lineno == |lines| then Err(IndexError)
      else
        var next := lines[lineno];
        if next == [] then Err(IndexError)
        else if next[0] != '#' then Err(ParseError(lineno + 1, MissingHash))
        else
          var rest :- HeaderWords(lines, lineno + 1, next, 1);
          MoreWords(Drop(line, prefix), rest);
          Ok(multiset(Split(Drop(line, prefix))) + rest)
    else if rightBracket + 1 < |line| then Err(ParseError(lineno, TextAfterBracket))
    else
      SplitWords(line[Min(prefix, rightBracket)..rightBracket]);
      Ok(multiset(Split(line[Min(prefix, rightBracket)..rightBracket])))
  }

  lemma MoreWords(s: string, rest: multiset<string>)
    requires Words(rest)
    ensures Words(multiset(Split(s)) + rest)
  {
    SplitWords(s);
    WordsUnion(multiset(Split(s)), rest);
  }

  lemma WordsUnion(a: multiset<string>, b: multiset<string>)
    requires Words(a) && Words(b)
    ensures Words(a + b)
  {
    forall w | w in a + b ensures w != [] && NoSpace(w) {
      if w !in a { assert w in b; }
    }
  }

  /** Neither `line` nor any line after line `lineno` holds `]`. */
  predicate Unterminated(lines: seq<string>, lineno: nat, line: string)
    decreases |lines| - lineno
  {
    RightBracket(line) == -1 && (lineno < |lines| ==> Unterminated(lines, lineno + 1, lines[lineno]))
  }

  /** The step of an unterminated header: no `]`, so the next line is read. */
  lemma UnterminatedStep(lines: seq<string>, lineno: nat, line: string, prefix: nat)
    requires 1 <= lineno < |lines| && RightBracket(line) == -1
    ensures var next := lines[lineno];
      HeaderWords(lines, lineno, line, prefix).Err? <==>
        next == [] || next[0] != '#' || HeaderWords(lines, lineno + 1, next, 1).Err?
  {
    assert RightBracket(line) == -1;
  }

  /** A header whose `]` never comes is an error, whichever line it is reported on. */
  lemma {:induction false} UnterminatedHeaderFails(lines: seq<string>, lineno: nat, line: string, prefix: nat)
    requires 1 <= lineno <= |lines| && Unterminated(lines, lineno, line)
    ensures HeaderWords(lines, lineno, line, prefix).Err?
    decreases |lines| - lineno, 1
  {
    if lineno == |lines| {
      UnterminatedAtEnd(lines, lineno, line, prefix);
    } else {
      UnterminatedContinues(lines, lineno, line, prefix);
    }
  }

  lemma {:induction false} UnterminatedContinues(lines: seq<string>, lineno: nat, line: string, prefix: nat)
    requires 1 <= lineno < |lines| && Unterminated(lines, lineno, line)
    ensures HeaderWords(lines, lineno, line, prefix).Err?
    decreases |lines| - lineno, 0
  {
    var next := lines[lineno];
    if next != [] && next[0] == '#' {
      UnterminatedHeaderFails(lines, lineno + 1, next, 1);
    }
    UnterminatedStep(lines, lineno, line, prefix);
  }

  lemma UnterminatedAtEnd(lines: seq<string>, lineno: nat, line: string, prefix: nat)
    requires 1 <= lineno == |lines| && RightBracket(line) == -1
    ensures HeaderWords(lines, lineno, line, prefix) == Err(IndexError)
  {
    assert RightBracket(line) == -1;
  }

  /** A header closed on its own line counts the words between the token and `]`. */
  lemma OneLineHeader(lines: seq<string>, lineno: nat, line: string, prefix: nat)
    requires 1 <= lineno <= |lines| && prefix <= |line| - 1 && line[|line| - 1] == ']'
    requires forall i | 0 <= i < |line| - 1 :: line[i] != ']'
    ensures HeaderWords(lines, lineno, line, prefix) == Ok(multiset(Split(line[prefix..|line| - 1])))
  {
    RightBracketAtEnd(line);
    ClosedHeader(lines, lineno, line, prefix);
  }

  lemma RightBracketAtEnd(line: string)
    requires line != [] && line[|line| - 1] == ']' && forall i | 0 <= i < |line| - 1 :: line[i] != ']'
    ensures RightBracket(line) == |line| - 1
  {
    RightBracketFirst(line);
  }

  lemma ClosedHeader(lines: seq<string>, lineno: nat, line: string, prefix: nat)
    requires 1 <= lineno <= |lines| && prefix <= |line| - 1 && RightBracket(line) == |line| - 1
    ensures HeaderWords(lines, lineno, line, prefix) == Ok(multiset(Split(line[prefix..|line| - 1])))
  {
    assert Min(prefix, |line| - 1) == prefix;
  }

  /** The distinct words. */
  function WordSet(counts: multiset<string>): (r: set<string>)
    ensures forall t :: t in r <==> t in counts
  {
    set t | t in counts
  }

  /** The words that occur more than once. */
  function Duplicates(counts: multiset<string>): (r: set<string>)
    ensures forall t :: t in r <==> counts[t] > 1
  {
    set t | t in counts && counts[t] > 1
  }

  /** The lower-cased words of a tag declaration. */
  function LoweredSet(words: set<string>): (r: set<string>)
    ensures forall t :: t in r <==> exists w :: w in words && Lower(w) == t
  {
    set w | w in words :: Lower(w)
  }

  /** `ids.update({t: id for t in tags})`. */
  function MapTags(ids: map<string, nat>, tags: set<string>, id: nat): map<string, nat> {
    ids + map t | t in tags :: id
  }

  /**
   * A tag declaration: one more tag set, and each of its tags now maps to it, replacing the
   * tag set an earlier declaration gave it. Also returns the tags that were already declared.
   */
  function DeclareTags(st: ParserState, tags: set<string>): (r: (ParserState, set<string>))
    ensures r.0.tagSets == st.tagSets + {tags} && r.0.declarations == st.declarations + 1
    ensures r.0.tagToTagSet.Keys == st.tagToTagSet.Keys + tags
    ensures forall t | t in tags :: r.0.tagToTagSet[t] == st.declarations
    ensures forall t | t in st.tagToTagSet && t !in tags :: r.0.tagToTagSet[t] == st.tagToTagSet[t]
    ensures forall t :: t in r.1 <==> t in tags && t in st.tagToTagSet
    ensures r.0 == st.(tagSets := r.0.tagSets, tagToTagSet := r.0.tagToTagSet, declarations := r.0.declarations)
  {
    var found := tags * st.tagToTagSet.Keys;
    var ids := MapTags(st.tagToTagSet, tags, st.declarations);
    (st.(tagSets := st.tagSets + {tags}, tagToTagSet := ids, declarations := st.declarations + 1), found)
  }

  /**
   * What a header does with its counted words: a repeated word is an error; a tag header
   * declares its lower-cased words as a tag set; a result header must name known results and
   * adds them to the allowed ones.
   */
  function HeaderDeclaration(st: ParserState, lineno: nat, isTags: bool, counts: multiset<string>): (r: Result<(ParserState, set<string>), Failure>)
    ensures Duplicates(counts) != {} ==> r == Err(ParseError(lineno, DuplicateTags(Duplicates(counts))))
    ensures Duplicates(counts) == {} && isTags ==> r == Ok(DeclareTags(st, LoweredSet(WordSet(counts))))
    ensures Duplicates(counts) == {} && !isTags ==>
      (r.Ok? <==> WordSet(counts) <= ValidResultTags)
      && (r.Ok? ==> r.value == (st.(allowedResults := st.allowedResults + WordSet(counts)), {}))
      && (r.Err? ==> r.error == ParseError(lineno, UnknownResults(WordSet(counts))))
  {
    var duplicates := Duplicates(counts);
    if duplicates != {} then Err(ParseError(lineno, DuplicateTags(duplicates)))
    else if isTags then Ok(DeclareTags(st, LoweredSet(WordSet(counts))))
    else if !(WordSet(counts) <= ValidResultTags) then Err(ParseError(lineno, UnknownResults(WordSet(counts))))
    else Ok((st.(allowedResults := st.allowedResults + WordSet(counts)), {}))
  }

  /**
   * A header line (`_parse_header_token_line`): rejected once a rule has been read; otherwise
   * its words are collected, over several lines if need be, and declared.
   */
  function HeaderLine(st: ParserState, lines: seq<string>, lineno: nat, line: string): (r: Result<(ParserState, set<string>), Failure>)
    requires 1 <= lineno <= |lines|
    ensures st.expectations != [] ==> r == Err(ParseError(lineno, TagAfterExpectation))
    ensures st.expectations == [] ==>
      var isTags := StartsWith(line, TagToken);
      var w := HeaderWords(lines, lineno, line, if isTags then |TagToken| else |ResultToken|);
      (w.Err? ==> r == Err(w.error)) && (w.Ok? ==> r == HeaderDeclaration(st, lineno, isTags, w.value))
  {
    if st.expectations != [] then Err(ParseError(lineno, TagAfterExpectation))
    else
      var isTags := StartsWith(line, TagToken);
      var counts :- HeaderWords(lines, lineno, line, if isTags then |TagToken| else |ResultToken|);
      HeaderDeclaration(st, lineno, isTags, counts)
  }

  /** A header leaves the rules, the directives and the conflict mode as they were. */
  lemma HeaderKeepsRules(st: ParserState, lines: seq<string>, lineno: nat, line: string)
    requires 1 <= lineno <= |lines| && HeaderLine(st, lines, lineno, line).Ok?
    ensures var st' := HeaderLine(st, lines, lineno, line).value.0;
      st'.expectations == st.expectations && st'.conflictResolution == st.conflictResolution
      && st'.conflictsAllowed == st.conflictsAllowed && st'.fullWildcardSupport == st.fullWildcardSupport
      && st'.allowedResults <= st.allowedResults + ValidResultTags
      && st'.tagToTagSet.Keys >= st.tagToTagSet.Keys
  {
  }

  // ---------------------------------------------------------------- directives

  /** The lower-cased text after a directive's token. */
  function DirectiveValue(line: string, token: string): string {
    Lower(Drop(line, |token|))
  }

  function ConflictResolutionLine(st: ParserState, lineno: nat, line: string): (r: Result<ParserState, Failure>)
    ensures var v := DirectiveValue(line, ConflictResolutionToken);
      r.Ok? <==> v == "union" || v == "override"
    ensures r.Ok? ==> r.value == st.(conflictResolution := if DirectiveValue(line, ConflictResolutionToken) == "union" then Union else Override)
    ensures r.Err? ==> r.error == ParseError(lineno, UnrecognizedValue(ConflictResolutionDirective, DirectiveValue(line, ConflictResolutionToken)))
  {
    var value := DirectiveValue(line, ConflictResolutionToken);
    if value != "union" && value != "override" then
      Err(ParseError(lineno, UnrecognizedValue(ConflictResolutionDirective, value)))
    else if value == "union" then Ok(st.(conflictResolution := Union))
    else Ok(st.(conflictResolution := Override))
  }

  function ConflictsAllowedLine(st: ParserState, lineno: nat, line: string): (r: Result<ParserState, Failure>)
    ensures var v := DirectiveValue(line, ConflictsAllowedToken);
      r.Ok? <==> v == "true" || v == "false"
    ensures r.Ok? ==> r.value == st.(conflictsAllowed := DirectiveValue(line, ConflictsAllowedToken) == "true")
    ensures r.Err? ==> r.error == ParseError(lineno, UnrecognizedValue(ConflictsAllowedDirective, DirectiveValue(line, ConflictsAllowedToken)))
  {
    var value := DirectiveValue(line, ConflictsAllowedToken);
    if value != "true" && value != "false" then
      Err(ParseError(lineno, UnrecognizedValue(ConflictsAllowedDirective, value)))
    else Ok(st.(conflictsAllowed := value == "true"))
  }

  function FullWildcardSupportLine(st: ParserState, lineno: nat, line: string): (r: Result<ParserState, Failure>)
    ensures var v := DirectiveValue(line, FullWildcardSupportToken);
      r.Ok? <==> v == "true" || v == "false"
    ensures r.Ok? ==> r.value == st.(fullWildcardSupport := DirectiveValue(line, FullWildcardSupportToken) == "true")
    ensures r.Err? ==> r.error == ParseError(lineno, UnrecognizedValue(FullWildcardSupportDirective, DirectiveValue(line, FullWildcardSupportToken)))
  {
    var value := DirectiveValue(line, FullWildcardSupportToken);
    if value != "true" && value != "false" then
      Err(ParseError(lineno, UnrecognizedValue(FullWildcardSupportDirective, value)))
    else Ok(st.(fullWildcardSupport := value == "true"))
  }

  // ---------------------------------------------------------------- tags of a data line


  predicate AllKnown(tags: seq<string>, ids: map<string, nat>) {
    forall i | 0 <= i < |tags| :: tags[i] in ids
  }

  /** Position `i` holds an undeclared tag and every tag before it is declared. */
  predicate FirstUnknownAt(tags: seq<string>, ids: map<string, nat>, i: int) {
    0 <= i < |tags| && tags[i] !in ids && AllKnown(tags[..i], ids)
  }

  /** The first tag that belongs to no declared tag set. */
  function FirstUnknown(tags: seq<string>, ids: map<string, nat>): (r: Option<string>)
    ensures r.None? <==> AllKnown(tags, ids)
    ensures r.Some? ==> r.value in tags && r.value !in ids
    ensures r.Some? ==> exists i :: FirstUnknownAt(tags, ids, i) && tags[i] == r.value
    decreases |tags|
  {
    if tags == [] then None
    else if tags[0] !in ids then
      assert FirstUnknownAt(tags, ids, 0);
      Some(tags[0])
    else
      var r := FirstUnknown(tags[1..], ids);
      assert AllKnown(tags[1..], ids) && tags[0] in ids ==> AllKnown(tags, ids) by {
        if AllKnown(tags[1..], ids) && tags[0] in ids {
          forall i | 0 <= i < |tags| ensures tags[i] in ids {
            if i > 0 { assert tags[i] == tags[1..][i - 1]; }
          }
        }
      }
      if r.Some? then
        var i :| FirstUnknownAt(tags[1..], ids, i) && tags[1..][i] == r.value;
        assert tags[i + 1] == r.value;
        assert FirstUnknownAt(tags, ids, i + 1) by {
          forall m | 0 <= m < i + 1 ensures tags[m] in ids {
            if m > 0 { assert tags[m] == tags[1..][..i][m - 1]; }
          }
        }
        r
      else r
  }

  /** The tag sets the tags come from. */
  function TagSetIds(tags: seq<string>, ids: map<string, nat>): (r: set<nat>)
    requires AllKnown(tags, ids)
    ensures forall k :: k in r <==> exists i | 0 <= i < |tags| :: ids[tags[i]] == k
    decreases |tags|
  {
    if tags == [] then {}
    else
      var front := tags[..|tags| - 1];
      assert AllKnown(front, ids);
      var r := TagSetIds(front, ids) + {ids[tags[|tags| - 1]]};
      assert forall k :: k in r <==> exists i | 0 <= i < |tags| :: ids[tags[i]] == k by {
        forall k ensures k in r <==> exists i | 0 <= i < |tags| :: ids[tags[i]] == k {
          if k in TagSetIds(front, ids) {
            var i :| 0 <= i < |front| && ids[front[i]] == k;
            assert tags[i] == front[i];
          }
          if exists i | 0 <= i < |tags| :: ids[tags[i]] == k {
            var i :| 0 <= i < |tags| && ids[tags[i]] == k;
            if i < |tags| - 1 { assert tags[i] == front[i]; }
          }
        }
      }
      r
  }

  /** No two tags come from the same tag set. */
  predicate DistinctTagSets(tags: seq<string>, ids: map<string, nat>)
    requires AllKnown(tags, ids)
  {
    forall i, j | 0 <= i < j < |tags| :: ids[tags[i]] != ids[tags[j]]
  }

  /** Tags are from distinct tag sets when the front is and the last tag's set is new. */
  lemma DistinctSnoc(tags: seq<string>, ids: map<string, nat>)
    requires tags != [] && AllKnown(tags, ids)
    ensures AllKnown(tags[..|tags| - 1], ids)
    ensures DistinctTagSets(tags, ids) <==>
      DistinctTagSets(tags[..|tags| - 1], ids) && ids[tags[|tags| - 1]] !in TagSetIds(tags[..|tags| - 1], ids)
  {
    var n := |tags|;
    var front := tags[..n - 1];
    assert forall i | 0 <= i < n - 1 :: front[i] == tags[i];
    assert AllKnown(front, ids);
  }

  /** The count `len(tag_set_ids) != len(tags)` finds exactly two tags of one tag set. */
  lemma {:induction false} TagSetIdsCount(tags: seq<string>, ids: map<string, nat>)
    requires AllKnown(tags, ids)
    ensures |TagSetIds(tags, ids)| <= |tags|
    ensures |TagSetIds(tags, ids)| == |tags| <==> DistinctTagSets(tags, ids)
    decreases |tags|
  {
    if tags != [] {
      var front := tags[..|tags| - 1];
      DistinctSnoc(tags, ids);
      TagSetIdsCount(front, ids);
      assert TagSetIds(tags, ids) == TagSetIds(front, ids) + {ids[tags[|tags| - 1]]};
    }
  }

  /** A group of tags and the tag set they come from. */
  type Group = (nat, seq<string>)

  /** Tags grouped by tag set, in order of the first tag of each set. */
  function GroupByTagSet(tags: seq<string>, ids: map<string, nat>): (r: seq<Group>)
    requires AllKnown(tags, ids)
    decreases |tags|
  {
    if tags == [] then []
    else
      var front := tags[..|tags| - 1];
      assert AllKnown(front, ids);
      AddToGroup(GroupByTagSet(front, ids), ids[tags[|tags| - 1]], tags[|tags| - 1])
  }

  /** Where the group of tag set `id` is, or -1. */
  function GroupIndex(groups: seq<Group>, id: nat): (k: int)
    ensures -1 <= k < |groups| && (k >= 0 ==> groups[k].0 == id)
    ensures k == -1 ==> forall i | 0 <= i < |groups| :: groups[i].0 != id
  {
    if groups == [] then -1
    else if groups[|groups| - 1].0 == id then |groups| - 1
    else GroupIndex(groups[..|groups| - 1], id)
  }

  /**
   * `tags_by_tag_set_id[id].append(t)` on an insertion-ordered dictionary: the tag joins the
   * group of its tag set, or starts a new group at the end.
   */
  function AddToGroup(groups: seq<Group>, id: nat, t: string): (r: seq<Group>)
  {
    var k := GroupIndex(groups, id);
    if k == -1 then groups + [(id, [t])] else groups[k := (id, groups[k].1 + [t])]
  }

  /** Every tag of a group has the group's tag set. */
  predicate Homogeneous(groups: seq<Group>, ids: map<string, nat>) {
    forall i, j | 0 <= i < |groups| && 0 <= j < |groups[i].1| :: groups[i].1[j] in ids && ids[groups[i].1[j]] == groups[i].0
  }

  /** No tag set has two groups. */
  predicate DistinctGroups(groups: seq<Group>) {
    forall i, j | 0 <= i < j < |groups| :: groups[i].0 != groups[j].0
  }

  /** All the tags of the groups, group after group. */
  function Members(groups: seq<Group>): seq<string> {
    if groups == [] then [] else Members(groups[..|groups| - 1]) + groups[|groups| - 1].1
  }

  lemma {:induction false} MembersUpdate(groups: seq<Group>, k: nat, g: Group)
    requires k < |groups|
    ensures multiset(Members(groups[k := g])) == multiset(Members(groups)) - multiset(groups[k].1) + multiset(g.1)
    ensures multiset(groups[k].1) <= multiset(Members(groups))
    decreases |groups|
  {
    var n := |groups|;
    var u := groups[k := g];
    assert u[..n - 1] == if k == n - 1 then groups[..n - 1] else groups[..n - 1][k := g];
    if k < n - 1 {
      MembersUpdate(groups[..n - 1], k, g);
    }
  }

  lemma AddToGroupKeepsGroups(groups: seq<Group>, ids: map<string, nat>, t: string)
    requires Homogeneous(groups, ids) && DistinctGroups(groups) && t in ids
    ensures Homogeneous(AddToGroup(groups, ids[t], t), ids) && DistinctGroups(AddToGroup(groups, ids[t], t))
    ensures multiset(Members(AddToGroup(groups, ids[t], t))) == multiset(Members(groups)) + multiset{t}
  {
    var id := ids[t];
    var k := GroupIndex(groups, id);
    if k == -1 {
      NewGroupKeepsGroups(groups, ids, t);
    } else {
      GrownGroupKeepsGroups(groups, ids, t, k);
    }
  }

  lemma NewGroupKeepsGroups(groups: seq<Group>, ids: map<string, nat>, t: string)
    requires Homogeneous(groups, ids) && DistinctGroups(groups) && t in ids
    requires forall i | 0 <= i < |groups| :: groups[i].0 != ids[t]
    ensures var u := groups + [(ids[t], [t])];
      Homogeneous(u, ids) && DistinctGroups(u) && multiset(Members(u)) == multiset(Members(groups)) + multiset{t}
  {
    var u := groups + [(ids[t], [t])];
    assert u[..|groups|] == groups;
  }

  lemma GrownGroupKeepsGroups(groups: seq<Group>, ids: map<string, nat>, t: string, k: nat)
    requires Homogeneous(groups, ids) && DistinctGroups(groups) && t in ids
    requires k < |groups| && groups[k].0 == ids[t]
    ensures var u := groups[k := (ids[t], groups[k].1 + [t])];
      Homogeneous(u, ids) && DistinctGroups(u) && multiset(Members(u)) == multiset(Members(groups)) + multiset{t}
  {
    GrownGroupHomogeneous(groups, ids, t, k);
    GrownGroupDistinct(groups, ids, t, k);
    MembersUpdate(groups, k, (ids[t], groups[k].1 + [t]));
  }

  lemma GrownGroupHomogeneous(groups: seq<Group>, ids: map<string, nat>, t: string, k: nat)
    requires Homogeneous(groups, ids) && t in ids
    requires k < |groups| && groups[k].0 == ids[t]
    ensures Homogeneous(groups[k := (ids[t], groups[k].1 + [t])], ids)
  {
    var u := groups[k := (ids[t], groups[k].1 + [t])];
    forall i, j | 0 <= i < |u| && 0 <= j < |u[i].1|
      ensures u[i].1[j] in ids && ids[u[i].1[j]] == u[i].0
    {
      if i == k && j == |groups[k].1| {
        assert u[i].1[j] == t;
      } else {
        assert u[i].1[j] == groups[i].1[j];
      }
    }
  }

  lemma GrownGroupDistinct(groups: seq<Group>, ids: map<string, nat>, t: string, k: nat)
    requires DistinctGroups(groups) && t in ids
    requires k < |groups| && groups[k].0 == ids[t]
    ensures DistinctGroups(groups[k := (ids[t], groups[k].1 + [t])])
  {
    var u := groups[k := (ids[t], groups[k].1 + [t])];
    assert forall i | 0 <= i < |u| :: u[i].0 == groups[i].0;
  }

  /** The groups of the error message split the tags by tag set, dropping none and adding none. */
  lemma {:induction false} GroupsSplitTags(tags: seq<string>, ids: map<string, nat>)
    requires AllKnown(tags, ids)
    ensures Homogeneous(GroupByTagSet(tags, ids), ids) && DistinctGroups(GroupByTagSet(tags, ids))
    ensures multiset(Members(GroupByTagSet(tags, ids))) == multiset(tags)
    decreases |tags|
  {
    if tags != [] {
      var n := |tags|;
      var front := tags[..n - 1];
      assert AllKnown(front, ids);
      GroupsSplitTags(front, ids);
      AddToGroupKeepsGroups(GroupByTagSet(front, ids), ids, tags[n - 1]);
      assert tags == front + [tags[n - 1]];
    }
  }

  /** One line of the same-tag-set message per group, its tags sorted. */
  function GroupLines(groups: seq<(nat, seq<string>)>): string {
    if groups == [] then ""
    else "\n  - Tags " + GroupToString(Sort(groups[0].1)) + " are part of the same tag set" + GroupLines(groups[1..])
  }

  /**
   * `_validate_expectation_structure`: a misplaced `*` in limited mode, then the first unknown
   * tag, then two tags of one tag set, each reported on the data line.
   */
  function StructureError(st: ParserState, lineno: nat, test: string, tags: seq<string>): (r: Option<Failure>)
    ensures r.Some? ==> r.value.ParseError? && r.value.lineno == lineno
  {
    if !st.fullWildcardSupport && HasMisplacedWildcard(test) then Some(ParseError(lineno, InvalidGlob))
    else
      var unknown := FirstUnknown(tags, st.tagToTagSet);
      if unknown.Some? then Some(ParseError(lineno, UnknownTag(unknown.value)))
      else if |TagSetIds(tags, st.tagToTagSet)| != |tags| then
        Some(ParseError(lineno, SameTagSet(GroupByTagSet(tags, st.tagToTagSet))))
      else None
  }

  /** A data line's tags pass exactly when each is declared and no two share a tag set. */
  lemma StructureAccepted(st: ParserState, lineno: nat, test: string, tags: seq<string>)
    ensures StructureError(st, lineno, test, tags).None? <==>
      (st.fullWildcardSupport || !HasMisplacedWildcard(test))
      && AllKnown(tags, st.tagToTagSet) && DistinctTagSets(tags, st.tagToTagSet)
  {
    if AllKnown(tags, st.tagToTagSet) {
      TagSetIdsCount(tags, st.tagToTagSet);
    }
  }

  // ---------------------------------------------------------------- results of a data line

  /** The parsed results, the retry flag and the slow flag. */
  datatype ParsedResults = ParsedResults(results: seq<ResultType>, retryOnFailure: bool, isSlowTest: bool)

  /**
   * `_parse_and_validate_raw_results` on the result words: each must be an allowed result and a
   * known one; `RetryOnFailure` and `Slow` set flags instead of adding a result.
   */
  function RawResults(allowed: set<string>, lineno: nat, words: seq<string>): (r: Result<ParsedResults, Failure>)
    ensures r.Err? ==> r.error.ParseError? && r.error.lineno == lineno
    decreases |words|
  {
    if words == [] then Ok(ParsedResults([], false, false))
    else
      var w := words[0];
      if w !in allowed then Err(ParseError(lineno, UnknownResult(w)))
      else if ExpectationMap(w).None? && w != RetryOnFailureTag && w != SlowTag then
        Err(ParseError(lineno, UnknownResult(w)))
      else
        var rest :- RawResults(allowed, lineno, words[1..]);
        if ExpectationMap(w).Some? then Ok(rest.(results := [ExpectationMap(w).value] + rest.results))
        else if w == RetryOnFailureTag then Ok(rest.(retryOnFailure := true))
        else Ok(rest.(isSlowTest := true))
  }

  /** A word is a known result exactly when it names an outcome or one of the two flags. */
  lemma KnownResultWord(w: string)
    ensures w in ValidResultTags <==> ExpectationMap(w).Some? || w == RetryOnFailureTag || w == SlowTag
  {
    ResultTagSpellings();
    if ExpectationMap(w).Some? {
      ResultTagRoundTrip(ExpectationMap(w).value);
    }
  }

  /** The results are accepted exactly when every word is both allowed and known. */
  lemma {:induction false} RawResultsAccepts(allowed: set<string>, lineno: nat, words: seq<string>)
    ensures RawResults(allowed, lineno, words).Ok? <==> forall w | w in words :: w in allowed && w in ValidResultTags
    decreases |words|
  {
    if words != [] {
      RawResultsAccepts(allowed, lineno, words[1..]);
      KnownResultWord(words[0]);
      assert forall v :: v in words <==> v == words[0] || v in words[1..];
    }
  }

  /**
   * Accepted results are the outcomes the words name, and each flag is set exactly when its
   * word occurs.
   */
  lemma {:induction false} RawResultsValue(allowed: set<string>, lineno: nat, words: seq<string>)
    requires RawResults(allowed, lineno, words).Ok?
    ensures var p := RawResults(allowed, lineno, words).value;
      (forall t :: t in p.results <==> ResultTag(t) in words)
      && (p.retryOnFailure <==> RetryOnFailureTag in words)
      && (p.isSlowTest <==> SlowTag in words)
    decreases |words|
  {
    ResultTagSpellings();
    if words != [] {
      var w := words[0];
      RawResultsValue(allowed, lineno, words[1..]);
      assert forall v :: v in words <==> v == w || v in words[1..];
      if ExpectationMap(w).Some? {
        ResultTagRoundTrip(ExpectationMap(w).value);
      }
    }
  }

  /** A rejection names a word that is not allowed or not known. */
  lemma {:induction false} RawResultsError(allowed: set<string>, lineno: nat, words: seq<string>)
    requires RawResults(allowed, lineno, words).Err?
    ensures exists w | w in words ::
      RawResults(allowed, lineno, words).error == ParseError(lineno, UnknownResult(w)) && (w !in allowed || w !in ValidResultTags)
    decreases |words|
  {
    var w := words[0];
    KnownResultWord(w);
    if w in allowed && w in ValidResultTags {
      RawResultsError(allowed, lineno, words[1..]);
      var v :| v in words[1..] && RawResults(allowed, lineno, words[1..]).error == ParseError(lineno, UnknownResult(v))
        && (v !in allowed || v !in ValidResultTags);
      assert v in words;
    }
  }

  // ---------------------------------------------------------------- data lines

  /** The lower-cased tags of a data line, in order. */
  function DataTags(f: Fields): (r: seq<string>)
    ensures |r| == |RawTags(f)| && forall i | 0 <= i < |r| :: r[i] == Lower(RawTags(f)[i])
  {
    LowerAll(RawTags(f))
  }

  /** The tags of a data line as written. */
  function RawTags(f: Fields): seq<string> {
    if f.tags.Some? then Split(f.tags.value) else []
  }

  /** `[t.lower() for t in words]`. */
  function LowerAll(words: seq<string>): (r: seq<string>)
    ensures |r| == |words| && forall i | 0 <= i < |words| :: r[i] == Lower(words[i])
  {
    seq(|words|, i requires 0 <= i < |words| => Lower(words[i]))
  }

  /**
   * The rule a matched data line gives: its tags must pass the structure check and its results
   * the result check; then a glob is detected and escapes are undone.
   */
  function Rule(st: ParserState, lineno: nat, line: string, f: Fields): (r: Result<Expectation, Failure>)
    requires f.bugsEnd <= |line| && (f.bugsEnd > 0 ==> BugShaped(line, 0, f.bugsEnd))
    ensures r.Err? ==> r.error.ParseError? && r.error.lineno == lineno
  {
    var tags := DataTags(f);
    var structure := StructureError(st, lineno, f.test, tags);
    if structure.Some? then Err(structure.value)
    else
      var parsed :- RawResults(st.allowedResults, lineno, Split(f.results));
      var isGlob := IsGlob(f.test, st.fullWildcardSupport);
      var test := ProcessWildcards(f.test, isGlob, st.fullWildcardSupport);
      var results := set t | t in parsed.results;
      Ok(NewExpectation(Reason(line, f), test, tags, results, lineno,
                        parsed.retryOnFailure, parsed.isSlowTest, st.conflictResolution,
                        RawTags(f), Split(f.results), isGlob, st.fullWildcardSupport, f.comment))
  }

  /** A data line is accepted exactly when its tags pass the structure check and its results the result check. */
  lemma RuleAccepts(st: ParserState, lineno: nat, line: string, f: Fields)
    requires f.bugsEnd <= |line| && (f.bugsEnd > 0 ==> BugShaped(line, 0, f.bugsEnd))
    ensures Rule(st, lineno, line, f).Ok?
        <==> (StructureError(st, lineno, f.test, DataTags(f)).None? && RawResults(st.allowedResults, lineno, Split(f.results)).Ok?)
  {
  }

  /**
   * The rule of an accepted data line: the whole run of bug references as its reason, the
   * lower-cased tags, the outcomes named (`Pass` when none is), the two flags, and the test
   * with its glob detected and escapes undone.
   */
  lemma RuleValue(st: ParserState, lineno: nat, line: string, f: Fields)
    requires f.bugsEnd <= |line| && (f.bugsEnd > 0 ==> BugShaped(line, 0, f.bugsEnd))
    requires Rule(st, lineno, line, f).Ok?
    ensures RawResults(st.allowedResults, lineno, Split(f.results)).Ok?
    ensures var e := Rule(st, lineno, line, f).value; var p := RawResults(st.allowedResults, lineno, Split(f.results)).value;
      e.reason == Reason(line, f) && (forall t :: t in e.tags <==> t in DataTags(f))
      && e.rawTags == RawTags(f) && e.rawResults == Split(f.results)
      && e.isDefaultPass == (p.results == []) && (p.results != [] ==> forall t :: t in e.results <==> t in p.results)
      && (p.results == [] ==> e.results == {Pass})
      && e.shouldRetryOnFailure == p.retryOnFailure && e.isSlowTest == p.isSlowTest
      && e.isGlob == IsGlob(f.test, st.fullWildcardSupport)
      && e.test == ProcessWildcards(f.test, e.isGlob, st.fullWildcardSupport)
      && e.lineno == lineno && e.conflictResolution == st.conflictResolution
      && e.fullWildcardSupport == st.fullWildcardSupport && e.trailingComments == f.comment
  {
    var p := RawResults(st.allowedResults, lineno, Split(f.results)).value;
    var results := set t | t in p.results;
    assert results == {} <==> p.results == [] by {
      if p.results != [] { assert p.results[0] in results; }
    }
  }

  /**
   * `_parse_expectation_line`: split the line, lower-case and check the tags, check the
   * results, then detect a glob and undo escapes. The reason is the whole run of bug
   * references (see `DataLine.Reason`).
   */
  function ExpectationLine(st: ParserState, lineno: nat, line: string): (r: Result<Expectation, Failure>)
    ensures r.Err? ==> r.error.ParseError? && r.error.lineno == lineno
    ensures Match(line).None? ==> r == Err(ParseError(lineno, SyntaxError(line)))
    ensures Match(line).Some? ==> r == Rule(st, lineno, line, Match(line).value)
  {
    var m := Match(line);
    if m.None? then Err(ParseError(lineno, SyntaxError(line)))
    else Rule(st, lineno, line, m.value)
  }

  /**
   * An accepted data line yields a rule whose tags are declared and from distinct tag sets,
   * and whose test passed the wildcard check of its mode.
   */
  lemma AcceptedTags(st: ParserState, lineno: nat, line: string)
    requires ExpectationLine(st, lineno, line).Ok?
    ensures Match(line).Some?
    ensures var e := ExpectationLine(st, lineno, line).value; var f := Match(line).value;
      (forall t | t in e.tags :: t in st.tagToTagSet)
      && (forall t, u | t in e.tags && u in e.tags && t != u :: st.tagToTagSet[t] != st.tagToTagSet[u])
      && (st.fullWildcardSupport || !HasMisplacedWildcard(f.test))
  {
    var f := Match(line).value;
    var tags := DataTags(f);
    RuleAccepts(st, lineno, line, f);
    RuleValue(st, lineno, line, f);
    StructureAccepted(st, lineno, f.test, tags);
    TagsOfDistinctSets(tags, st.tagToTagSet, ExpectationLine(st, lineno, line).value.tags);
  }

  /** The tags of a sequence that passes the structure check, taken as a set, keep its two properties. */
  lemma TagsOfDistinctSets(tags: seq<string>, ids: map<string, nat>, tagSet: set<string>)
    requires AllKnown(tags, ids) && DistinctTagSets(tags, ids)
    requires forall t :: t in tagSet <==> t in tags
    ensures forall t | t in tagSet :: t in ids
    ensures forall t, u | t in tagSet && u in tagSet && t != u :: ids[t] != ids[u]
  {
    forall t, u | t in tagSet && u in tagSet && t != u ensures ids[t] != ids[u] {
      var i :| 0 <= i < |tags| && tags[i] == t;
      var j :| 0 <= j < |tags| && tags[j] == u;
      if i < j {} else {}
    }
  }

  /**
   * An accepted data line yields a rule whose result words are all allowed and known, whose
   * flags are set exactly by their words, and whose results are the outcomes named, `Pass`
   * when none is.
   */
  lemma AcceptedResults(st: ParserState, lineno: nat, line: string)
    requires ExpectationLine(st, lineno, line).Ok?
    ensures var e := ExpectationLine(st, lineno, line).value;
      (forall w | w in e.rawResults :: w in st.allowedResults && w in ValidResultTags)
      && (e.shouldRetryOnFailure <==> RetryOnFailureTag in e.rawResults)
      && (e.isSlowTest <==> SlowTag in e.rawResults)
      && (e.isDefaultPass <==> forall t :: ResultTag(t) !in e.rawResults)
      && (!e.isDefaultPass ==> forall t :: t in e.results <==> ResultTag(t) in e.rawResults)
      && (e.isDefaultPass ==> e.results == {Pass})
  {
    var f := Match(line).value;
    RuleValue(st, lineno, line, f);
    RawResultsAccepts(st.allowedResults, lineno, Split(f.results));
    RawResultsValue(st.allowedResults, lineno, Split(f.results));
    var e := ExpectationLine(st, lineno, line).value;
    var parsed := RawResults(st.allowedResults, lineno, Split(f.results)).value;
    if !forall t :: ResultTag(t) !in e.rawResults {
      var t :| ResultTag(t) in e.rawResults;
      assert t in parsed.results;
    }
  }
  /**
   * An accepted data line yields a rule read on that line under the file's directives, whose
   * reason is the whole run of bug references and whose test is the matched one with its glob
   * detected and escapes undone.
   */
  lemma AcceptedLine(st: ParserState, lineno: nat, line: string)
    requires ExpectationLine(st, lineno, line).Ok?
    ensures Match(line).Some?
    ensures var e := ExpectationLine(st, lineno, line).value; var f := Match(line).value;
      e.lineno == lineno && e.conflictResolution == st.conflictResolution
      && e.fullWildcardSupport == st.fullWildcardSupport
      && e.reason == Reason(line, f) && e.rawTags == RawTags(f) && e.trailingComments == f.comment
      && e.isGlob == IsGlob(f.test, st.fullWildcardSupport)
      && e.test == ProcessWildcards(f.test, e.isGlob, st.fullWildcardSupport)
  {
    RuleValue(st, lineno, line, Match(line).value);
  }

  // ---------------------------------------------------------------- reading a printed rule back

  /**
   * The fields `to_string` writes after the reason: the sorted tags and the sorted results, each
   * joined by single spaces, the test escaped for its glob mode, and the comment.
   */
  function PrintedFields(e: Expectation): (f: Fields)
    requires ToString(e).Ok?
    ensures ToString(e).value == (if e.reason != [] then e.reason + " " else "") + Tail(f)
    ensures f.bugsEnd == (if e.reason != [] then |e.reason| + 1 else 0)
    ensures f.test == PrintedTest(e.test, e.isGlob, e.fullWildcardSupport).value
    ensures f.results == Join(PrintedResults(e), " ") && f.comment == e.trailingComments
  {
    var tags := PrintedTags(e).value;
    var test := PrintedTest(e.test, e.isGlob, e.fullWildcardSupport).value;
    var f := Fields(if e.reason != [] then |e.reason| + 1 else 0, None,
                    if tags != [] then Some(Join(tags, " ")) else None,
                    test, Join(PrintedResults(e), " "), e.trailingComments);
    LineIsReasonAndTail(e.reason, tags, test, PrintedResults(e), e.trailingComments, f);
    f
  }

  /** The line `to_string` assembles is the reason and a space, then the fields as a data line has them. */
  lemma LineIsReasonAndTail(reason: string, tags: seq<string>, test: string, results: seq<string>,
                            comment: string, f: Fields)
    requires f.tags == (if tags != [] then Some(Join(tags, " ")) else None)
    requires f.test == test && f.results == Join(results, " ") && f.comment == comment
    ensures Line(reason, tags, test, results, comment)
      == (if reason != [] then reason + " " else "") + Tail(f)
  {
    var rp := if reason != [] then reason + " " else "";
    var tp := if tags != [] then "[ " + Join(tags, " ") + " ] " else "";
    assert TagBlock(f.tags) == tp;
    assert Line(reason, tags, test, results, comment) == rp + tp + test + " " + "[ " + f.results + " ]" + comment;
    Regroup(rp, tp, test, f.results, comment);
  }

  lemma Regroup(rp: string, tp: string, test: string, results: string, comment: string)
    ensures rp + tp + test + " " + "[ " + results + " ]" + comment
      == rp + (tp + test + " [ " + results + " ]" + comment)
  {
    assert " " + "[ " == " [ ";
  }

  lemma LowerAllAppend(a: seq<string>, b: seq<string>)
    ensures LowerAll(a + b) == LowerAll(a) + LowerAll(b)
  {
  }

  /** Lower-casing commutes with inserting a word, up to order. */
  lemma {:induction false} LowerAllInsert(x: string, s: seq<string>)
    ensures multiset(LowerAll(Insert(x, s))) == multiset(LowerAll(s)) + multiset{Lower(x)}
    decreases |s|
  {
    if s == [] || LexLe(x, s[0]) {
      LowerAllAppend([x], s);
    } else {
      assert s == [s[0]] + s[1..];
      LowerAllInsert(x, s[1..]);
      LowerAllAppend([s[0]], Insert(x, s[1..]));
      LowerAllAppend([s[0]], s[1..]);
    }
  }

  /** Lower-casing the sorted words gives the lower-cased words in another order. */
  lemma {:induction false} LowerAllSort(xs: seq<string>)
    ensures multiset(LowerAll(Sort(xs))) == multiset(LowerAll(xs))
    decreases |xs|
  {
    if xs != [] {
      LowerAllSort(xs[1..]);
      LowerAllInsert(xs[0], Sort(xs[1..]));
      LowerAllCons(xs);
    }
  }

  /** Lower-casing a non-empty sequence of words lower-cases its first word and the rest. */
  lemma LowerAllCons(xs: seq<string>)
    requires xs != []
    ensures multiset(LowerAll(xs)) == multiset(LowerAll(xs[1..])) + multiset{Lower(xs[0])}
  {
    assert xs == [xs[0]] + xs[1..];
    LowerAllAppend([xs[0]], xs[1..]);
    assert LowerAll([xs[0]]) == [Lower(xs[0])];
  }

  /** A word counted twice occurs at two positions. */
  lemma {:induction false} RepeatedWord(s: seq<string>, x: string)
    requires multiset(s)[x] >= 2
    ensures exists i, j :: 0 <= i < j < |s| && s[i] == x && s[j] == x
    decreases |s|
  {
    assert s == [s[0]] + s[1..];
    if s[0] == x {
      assert x in multiset(s[1..]);
      var j :| 0 <= j < |s[1..]| && s[1..][j] == x;
      assert s[j + 1] == x;
    } else {
      RepeatedWord(s[1..], x);
      var i, j :| 0 <= i < j < |s[1..]| && s[1..][i] == x && s[1..][j] == x;
      assert s[i + 1] == x && s[j + 1] == x;
    }
  }

  /** A word at two positions is counted twice. */
  lemma TwiceCounted(s: seq<string>, i: nat, j: nat)
    requires i < j < |s| && s[i] == s[j]
    ensures multiset(s)[s[i]] >= 2
  {
    assert s == s[..j] + s[j..];
    assert s[..j][i] == s[i];
    assert s[j..][0] == s[j];
  }

  /** Whether tags are declared and from distinct tag sets does not depend on their order. */
  lemma DistinctTagSetsPermutation(a: seq<string>, b: seq<string>, ids: map<string, nat>)
    requires multiset(a) == multiset(b) && AllKnown(a, ids) && DistinctTagSets(a, ids)
    ensures AllKnown(b, ids) && DistinctTagSets(b, ids)
  {
    forall i | 0 <= i < |b| ensures b[i] in ids {
      assert b[i] in multiset(a);
    }
    forall i, j | 0 <= i < j < |b| ensures ids[b[i]] != ids[b[j]] {
      if b[i] == b[j] {
        TwiceCounted(b, i, j);
        RepeatedWord(a, b[i]);
        assert false;
      } else {
        assert b[i] in multiset(a) && b[j] in multiset(a);
        var i' :| 0 <= i' < |a| && a[i'] == b[i];
        var j' :| 0 <= j' < |a| && a[j'] == b[j];
        assert i' != j';
      }
    }
  }

  /** An accepted rule can be printed: its test passed the wildcard check and its tags are not empty. */
  lemma AcceptedRulePrints(st: ParserState, lineno: nat, line: string)
    requires ExpectationLine(st, lineno, line).Ok?
    ensures var e := ExpectationLine(st, lineno, line).value;
      ToString(e).Ok? && PrintedTest(e.test, e.isGlob, e.fullWildcardSupport) == Some(Match(line).value.test)
  {
    var f := Match(line).value;
    var e := ExpectationLine(st, lineno, line).value;
    RuleValue(st, lineno, line, f);
    RuleAccepts(st, lineno, line, f);
    StructureAccepted(st, lineno, f.test, DataTags(f));
    PrintedTestRoundTrip(f.test, st.fullWildcardSupport);
    if e.rawTags == [] {
      assert e.tags == {};
    }
  }

  /**
   * The printed tags read back as the tags of the line, in sorted order; lower-cased, they are
   * the rule's tags in another order.
   */
  lemma PrintedTagsReadBack(st: ParserState, lineno: nat, line: string)
    requires ExpectationLine(st, lineno, line).Ok?
    ensures var e := ExpectationLine(st, lineno, line).value; ToString(e).Ok?
    ensures var e := ExpectationLine(st, lineno, line).value; var f := Match(line).value;
      var g := PrintedFields(e);
      RawTags(g) == PrintedTags(e).value && multiset(RawTags(g)) == multiset(RawTags(f))
      && multiset(DataTags(g)) == multiset(DataTags(f))
  {
    var f := Match(line).value;
    var e := ExpectationLine(st, lineno, line).value;
    AcceptedRulePrints(st, lineno, line);
    RuleValue(st, lineno, line, f);
    var g := PrintedFields(e);
    var printed := PrintedTags(e).value;
    if e.rawTags != [] {
      assert printed == Sort(e.rawTags);
      forall i | 0 <= i < |printed| ensures printed[i] != [] && NoSpace(printed[i]) {
        assert printed[i] in e.rawTags;
      }
      SplitJoin(printed);
    } else {
      assert e.tags == {};
      assert printed == SortedSet({});
    }
    assert RawTags(g) == Sort(RawTags(f));
    LowerAllSort(RawTags(f));
  }

  /**
   * The printed results read back as the same words: the words of the line in sorted order, or
   * `Pass` alone when the line's result block held no word.
   */
  lemma PrintedResultsReadBack(st: ParserState, lineno: nat, line: string)
    requires ExpectationLine(st, lineno, line).Ok?
    ensures var e := ExpectationLine(st, lineno, line).value; ToString(e).Ok?
    ensures var e := ExpectationLine(st, lineno, line).value; var printed := PrintedResults(e);
      Split(PrintedFields(e).results) == printed
      && (e.rawResults != [] ==> forall w :: w in printed <==> w in e.rawResults)
      && (e.rawResults == [] ==> forall w :: w in printed <==> w == ResultTag(Pass))
  {
    var f := Match(line).value;
    var e := ExpectationLine(st, lineno, line).value;
    AcceptedRulePrints(st, lineno, line);
    AcceptedResults(st, lineno, line);
    RuleValue(st, lineno, line, f);
    assert forall w | w in e.rawResults :: w != [] && NoSpace(w);
    if e.rawResults == [] {
      assert !e.isSlowTest && !e.shouldRetryOnFailure && e.results == {Pass};
    }
    PrintedResultWords(e);
  }

  /**
   * The printed results of a rule whose result words are words, or which expects only `Pass`,
   * split back into themselves.
   */
  lemma PrintedResultWords(e: Expectation)
    requires forall w | w in e.rawResults :: w != [] && NoSpace(w)
    requires e.rawResults == [] ==> !e.isSlowTest && !e.shouldRetryOnFailure && e.results == {Pass}
    ensures Split(Join(PrintedResults(e), " ")) == PrintedResults(e)
    ensures e.rawResults == [] ==> forall w :: w in PrintedResults(e) <==> w == ResultTag(Pass)
  {
    var printed := PrintedResults(e);
    if e.rawResults == [] {
      assert ResultSpellings(e) == {"Pass"} by {
        assert (set t | t in {Pass} :: ResultTag(t)) == {"Pass"};
      }
    }
    forall i | 0 <= i < |printed| ensures printed[i] != [] && NoSpace(printed[i]) {
      assert printed[i] in printed;
    }
    SplitJoin(printed);
  }

  /** The printed reason reads back as the reason: it is a run of bug references ending in a space. */
  lemma PrintedReasonReadBack(line: string, f: Fields, rendered: string, rest: string, g: Fields)
    requires f.bugsEnd <= |line| && (f.bugsEnd > 0 ==> BugShaped(line, 0, f.bugsEnd))
    requires var r := Reason(line, f);
      g.bugsEnd == (if r != [] then |r| + 1 else 0)
      && rendered == (if r != [] then r + " " else "") + rest
    ensures g.bugsEnd <= |rendered| && (g.bugsEnd > 0 ==> BugShaped(rendered, 0, g.bugsEnd))
    ensures Reason(rendered, g) == Reason(line, f)
  {
    var r := Reason(line, f);
    if r != [] {
      assert rendered[0] == line[0];
      assert rendered[|r| - 1] == line[f.bugsEnd - 2];
      assert rendered[|r|] == ' ';
      assert rendered[..|r|] == r;
    }
  }

  /** The printed test and tags pass the structure check again. */
  lemma PrintedStructureAccepted(st: ParserState, lineno: nat, line: string)
    requires ExpectationLine(st, lineno, line).Ok?
    ensures var e := ExpectationLine(st, lineno, line).value; ToString(e).Ok?
    ensures var e := ExpectationLine(st, lineno, line).value; var g := PrintedFields(e);
      g.test == Match(line).value.test && StructureError(st, lineno, g.test, DataTags(g)).None?
  {
    var f := Match(line).value;
    var e := ExpectationLine(st, lineno, line).value;
    AcceptedRulePrints(st, lineno, line);
    PrintedTagsReadBack(st, lineno, line);
    RuleAccepts(st, lineno, line, f);
    var g := PrintedFields(e);
    StructureAccepted(st, lineno, f.test, DataTags(f));
    DistinctTagSetsPermutation(DataTags(f), DataTags(g), st.tagToTagSet);
    StructureAccepted(st, lineno, g.test, DataTags(g));
  }

  /** What an accepted data line's results make of a rule (the conclusions of `AcceptedResults`). */
  predicate ResultsAsRead(allowed: set<string>, e: Expectation) {
    && (forall w | w in e.rawResults :: w in allowed && w in ValidResultTags && w != [] && NoSpace(w))
    && (e.shouldRetryOnFailure <==> RetryOnFailureTag in e.rawResults)
    && (e.isSlowTest <==> SlowTag in e.rawResults)
    && (e.isDefaultPass <==> forall t :: ResultTag(t) !in e.rawResults)
    && (!e.isDefaultPass ==> forall t :: t in e.results <==> ResultTag(t) in e.rawResults)
    && (e.isDefaultPass ==> e.results == {Pass})
  }

  /**
   * The printed results pass the result check again, except `Pass` printed for a result block
   * with no word, which passes only when it is a declared result; they name the same outcomes
   * and flags.
   */
  lemma PrintedResultsAccepted(allowed: set<string>, lineno: nat, e: Expectation)
    requires ResultsAsRead(allowed, e)
    ensures var words := Split(Join(PrintedResults(e), " "));
      && (RawResults(allowed, lineno, words).Ok? <==> e.rawResults != [] || ResultTag(Pass) in allowed)
      && (RawResults(allowed, lineno, words).Ok? ==>
            var p := RawResults(allowed, lineno, words).value;
            && (p.results == [] <==> e.isDefaultPass && e.rawResults != [])
            && (p.results != [] ==> forall t :: t in p.results <==> t in e.results)
            && p.retryOnFailure == e.shouldRetryOnFailure && p.isSlowTest == e.isSlowTest)
  {
    if e.rawResults != [] {
      RecordedResultsAccepted(allowed, lineno, e);
    } else {
      DefaultResultsAccepted(allowed, lineno, e);
    }
  }

  lemma RecordedResultsAccepted(allowed: set<string>, lineno: nat, e: Expectation)
    requires ResultsAsRead(allowed, e) && e.rawResults != []
    ensures var words := Split(Join(PrintedResults(e), " "));
      && RawResults(allowed, lineno, words).Ok?
      && var p := RawResults(allowed, lineno, words).value;
      && (p.results == [] <==> e.isDefaultPass)
      && (p.results != [] ==> forall t :: t in p.results <==> t in e.results)
      && p.retryOnFailure == e.shouldRetryOnFailure && p.isSlowTest == e.isSlowTest
  {
    PrintedResultWords(e);
    var words := PrintedResults(e);
    ResultWordsAgree(allowed, lineno, words, e.rawResults);
    RawResultsAccepts(allowed, lineno, e.rawResults);
    RawResultsValue(allowed, lineno, e.rawResults);
    var q := RawResults(allowed, lineno, e.rawResults).value;
    if q.results != [] { assert ResultTag(q.results[0]) in e.rawResults; }
  }

  lemma DefaultResultsAccepted(allowed: set<string>, lineno: nat, e: Expectation)
    requires ResultsAsRead(allowed, e) && e.rawResults == []
    ensures var words := Split(Join(PrintedResults(e), " "));
      && (RawResults(allowed, lineno, words).Ok? <==> ResultTag(Pass) in allowed)
      && (RawResults(allowed, lineno, words).Ok? ==>
            var p := RawResults(allowed, lineno, words).value;
            && p.results != [] && (forall t :: t in p.results <==> t in e.results)
            && p.retryOnFailure == e.shouldRetryOnFailure && p.isSlowTest == e.isSlowTest)
  {
    assert !e.isSlowTest && !e.shouldRetryOnFailure && e.results == {Pass};
    PrintedResultWords(e);
    var words := PrintedResults(e);
    ResultWordsAgree(allowed, lineno, words, [ResultTag(Pass)]);
    PassAlone(allowed, lineno);
  }

  /** `Pass` alone passes the result check exactly when it is declared, and names `Pass`. */
  lemma PassAlone(allowed: set<string>, lineno: nat)
    ensures RawResults(allowed, lineno, [ResultTag(Pass)])
      == if ResultTag(Pass) in allowed then Ok(ParsedResults([Pass], false, false))
         else Err(ParseError(lineno, UnknownResult(ResultTag(Pass))))
  {
    var words := [ResultTag(Pass)];
    ResultTagRoundTrip(Pass);
    assert words[0] == ResultTag(Pass) && words[1..] == [];
    assert RawResults(allowed, lineno, words[1..]) == Ok(ParsedResults([], false, false));
    assert [Pass] + [] == [Pass];
  }

  /** Result words with the same members pass the result check together and name the same outcomes and flags. */
  lemma ResultWordsAgree(allowed: set<string>, lineno: nat, words: seq<string>, others: seq<string>)
    requires forall w :: w in words <==> w in others
    ensures RawResults(allowed, lineno, words).Ok? <==> RawResults(allowed, lineno, others).Ok?
    ensures RawResults(allowed, lineno, words).Ok? ==>
      var p := RawResults(allowed, lineno, words).value; var q := RawResults(allowed, lineno, others).value;
      && (forall t :: t in p.results <==> t in q.results) && (p.results == [] <==> q.results == [])
      && p.retryOnFailure == q.retryOnFailure && p.isSlowTest == q.isSlowTest
  {
    RawResultsAccepts(allowed, lineno, words);
    RawResultsAccepts(allowed, lineno, others);
    if RawResults(allowed, lineno, words).Ok? {
      RawResultsValue(allowed, lineno, words);
      RawResultsValue(allowed, lineno, others);
      var p := RawResults(allowed, lineno, words).value;
      var q := RawResults(allowed, lineno, others).value;
      if p.results != [] { assert p.results[0] in q.results; }
      if q.results != [] { assert q.results[0] in p.results; }
    }
  }

  /**
   * `to_string` and `_parse_expectation_line` agree field by field: the fields an accepted rule
   * prints after its reason read back, on the printed line, as a rule equal to it with the same
   * glob mode. The only exception is a result block with no word, which prints as `Pass`: it
   * reads back exactly when `Pass` is a declared result.
   */
  lemma RenderedRuleReadsBack(st: ParserState, lineno: nat, line: string)
    requires ExpectationLine(st, lineno, line).Ok?
    ensures var e := ExpectationLine(st, lineno, line).value; ToString(e).Ok?
    ensures var e := ExpectationLine(st, lineno, line).value;
      var rendered := ToString(e).value; var g := PrintedFields(e);
      && g.bugsEnd <= |rendered| && (g.bugsEnd > 0 ==> BugShaped(rendered, 0, g.bugsEnd))
      && (Rule(st, lineno, rendered, g).Ok? <==> e.rawResults != [] || ResultTag(Pass) in st.allowedResults)
      && (Rule(st, lineno, rendered, g).Ok? ==>
            var back := Rule(st, lineno, rendered, g).value;
            Equal(back, e) && back.isGlob == e.isGlob
            && back.conflictResolution == e.conflictResolution
            && back.fullWildcardSupport == e.fullWildcardSupport
            && (e.rawResults != [] ==> back.isDefaultPass == e.isDefaultPass))
  {
    var f := Match(line).value;
    var e := ExpectationLine(st, lineno, line).value;
    AcceptedRulePrints(st, lineno, line);
    PrintedTagsReadBack(st, lineno, line);
    PrintedStructureAccepted(st, lineno, line);
    AcceptedResults(st, lineno, line);
    RuleValue(st, lineno, line, f);
    var rendered := ToString(e).value;
    var g := PrintedFields(e);
    PrintedReasonReadBack(line, f, rendered, Tail(g), g);
    forall t ensures t in DataTags(g) <==> t in e.tags {
      assert t in DataTags(g) <==> t in multiset(DataTags(g));
      assert t in DataTags(f) <==> t in multiset(DataTags(f));
    }
    RuleFromPrinted(st, lineno, e, rendered, g);
  }

  /** The rule read from the printed fields, given what each field reads back as. */
  lemma RuleFromPrinted(st: ParserState, lineno: nat, e: Expectation, rendered: string, g: Fields)
    requires g.results == Join(PrintedResults(e), " ") && g.comment == e.trailingComments
    requires g.bugsEnd <= |rendered| && (g.bugsEnd > 0 ==> BugShaped(rendered, 0, g.bugsEnd))
    requires Reason(rendered, g) == e.reason
    requires StructureError(st, lineno, g.test, DataTags(g)).None?
    requires forall t :: t in DataTags(g) <==> t in e.tags
    requires IsGlob(g.test, st.fullWildcardSupport) == e.isGlob
    requires ProcessWildcards(g.test, e.isGlob, st.fullWildcardSupport) == e.test
    requires e.lineno == lineno && e.conflictResolution == st.conflictResolution
    requires e.fullWildcardSupport == st.fullWildcardSupport
    requires ResultsAsRead(st.allowedResults, e)
    ensures Rule(st, lineno, rendered, g).Ok? <==> e.rawResults != [] || ResultTag(Pass) in st.allowedResults
    ensures Rule(st, lineno, rendered, g).Ok? ==>
      var back := Rule(st, lineno, rendered, g).value;
      Equal(back, e) && back.isGlob == e.isGlob
      && back.conflictResolution == e.conflictResolution
      && back.fullWildcardSupport == e.fullWildcardSupport
      && (e.rawResults != [] ==> back.isDefaultPass == e.isDefaultPass)
  {
    RuleAccepts(st, lineno, rendered, g);
    PrintedResultsAccepted(st.allowedResults, lineno, e);
    if Rule(st, lineno, rendered, g).Ok? {
      RuleFromPrintedValue(st, lineno, e, rendered, g);
    }
  }

  lemma RuleFromPrintedValue(st: ParserState, lineno: nat, e: Expectation, rendered: string, g: Fields)
    requires g.results == Join(PrintedResults(e), " ") && g.comment == e.trailingComments
    requires g.bugsEnd <= |rendered| && (g.bugsEnd > 0 ==> BugShaped(rendered, 0, g.bugsEnd))
    requires Reason(rendered, g) == e.reason
    requires StructureError(st, lineno, g.test, DataTags(g)).None?
    requires forall t :: t in DataTags(g) <==> t in e.tags
    requires IsGlob(g.test, st.fullWildcardSupport) == e.isGlob
    requires ProcessWildcards(g.test, e.isGlob, st.fullWildcardSupport) == e.test
    requires e.lineno == lineno && e.conflictResolution == st.conflictResolution
    requires e.fullWildcardSupport == st.fullWildcardSupport
    requires ResultsAsRead(st.allowedResults, e)
    requires Rule(st, lineno, rendered, g).Ok?
    ensures var back := Rule(st, lineno, rendered, g).value;
      Equal(back, e) && back.isGlob == e.isGlob
      && back.conflictResolution == e.conflictResolution
      && back.fullWildcardSupport == e.fullWildcardSupport
      && (e.rawResults != [] ==> back.isDefaultPass == e.isDefaultPass)
  {
    RuleValue(st, lineno, rendered, g);
    PrintedResultsReadAgain(st, lineno, e, rendered, g);
  }

  lemma PrintedResultsReadAgain(st: ParserState, lineno: nat, e: Expectation, rendered: string, g: Fields)
    requires g.results == Join(PrintedResults(e), " ")
    requires g.bugsEnd <= |rendered| && (g.bugsEnd > 0 ==> BugShaped(rendered, 0, g.bugsEnd))
    requires ResultsAsRead(st.allowedResults, e)
    requires Rule(st, lineno, rendered, g).Ok?
    ensures var back := Rule(st, lineno, rendered, g).value;
      back.results == e.results
      && back.shouldRetryOnFailure == e.shouldRetryOnFailure && back.isSlowTest == e.isSlowTest
      && (e.rawResults != [] ==> back.isDefaultPass == e.isDefaultPass)
  {
    PrintedResultsAccepted(st.allowedResults, lineno, e);
    RuleValue(st, lineno, rendered, g);
  }
}

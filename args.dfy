/**
 * The command-line tokenizer: the character classes, the kebab-case and snake_case
 * name tests, the four single-token parsers and parse_arguments, which gives each raw
 * argument to the parsers in priority order and falls back to a plain value.
 *
 * A parser yields at most once; it is modelled as a function returning the sequence
 * of what it yields, so parse_arguments stays generic over any list of parsers.
 */
module Args {
  import opened Sequences

  // The character classes, as written in the source: UPPER stops at 'V' and then
  // repeats the lower-case 'w'..'z', so upper-case 'W'..'Z' are in neither class.
  const Digits: string := "0123456789"
  const Lower: string := "abcdefghijklmnopqrstuvwxyz"
  const Upper: string := "ABCDEFGHIJKLMNOPQRSTUVwxyz"
  const Alpha: string := Lower + Upper
  const Alnum: string := Alpha + Digits

  predicate IsAsciiLower(c: char) { 'a' <= c <= 'z' }
  predicate IsAsciiUpper(c: char) { 'A' <= c <= 'Z' }
  predicate IsDigit(c: char) { '0' <= c <= '9' }

  // Membership in Alpha and Alnum as range tests, which the parsers use; AlphaMembers
  // and AlnumMembers show they are membership in the constants above.
  predicate IsAlpha(c: char) { IsAsciiLower(c) || 'A' <= c <= 'V' }
  predicate IsAlnum(c: char) { IsAlpha(c) || IsDigit(c) }

  /** The members of Alpha by character range: 'W'..'Z' are left out. */
  lemma AlphaMembers(c: char)
    ensures c in Alpha <==> IsAlpha(c)
  {
    assert |Lower| == 26 && |Upper| == 26;
    assert forall i :: 0 <= i < 26 ==> Lower[i] as int == 'a' as int + i;
    assert forall i :: 0 <= i < 22 ==> Upper[i] as int == 'A' as int + i;
    assert forall i :: 22 <= i < 26 ==> Upper[i] as int == 'a' as int + i;
    if IsAsciiLower(c) {
      assert Alpha[c as int - 'a' as int] == c;
    } else if 'A' <= c <= 'V' {
      assert Alpha[26 + c as int - 'A' as int] == c;
    }
  }

  /** The members of Alnum by character range. */
  lemma AlnumMembers(c: char)
    ensures c in Alnum <==> IsAlnum(c)
  {
    AlphaMembers(c);
    assert |Digits| == 10;
    assert forall i :: 0 <= i < 10 ==> Digits[i] as int == '0' as int + i;
    if IsDigit(c) {
      assert Alnum[52 + c as int - '0' as int] == c;
    }
    assert c in Alnum <==> c in Alpha || c in Digits;
  }

  // ---------------------------------------------------------------------------------
  // String helpers with Python's meaning
  // ---------------------------------------------------------------------------------

  /** str.startswith. */
  predicate StartsWith(s: string, prefix: string) {
    |prefix| <= |s| && s[..|prefix|] == prefix
  }

  /** `sep + sep in s`: two separators in a row somewhere in s. */
  predicate HasDoubled(s: string, sep: char) {
    exists i :: 0 <= i < |s| - 1 && s[i] == sep && s[i + 1] == sep
  }

  /** str.replace(sep, ""): s with every sep removed, the rest in order. */
  function Without(s: string, sep: char): (r: string)
    ensures forall c :: c in r <==> c in s && c != sep
    ensures |r| <= |s|
  {
    if s == [] then []
    else (if s[0] == sep then [] else [s[0]]) + Without(s[1..], sep)
  }

  /** Every character of s is in Alnum. */
  predicate AllAlnum(s: string) {
    forall c :: c in s ==> IsAlnum(c)
  }

  /**
   * str.islower for ASCII text: some letter is lower case and none is upper case.
   * The name tests only ask it of strings whose characters are all in Alnum.
   */
  predicate IsLower(s: string) {
    (exists c :: c in s && IsAsciiLower(c)) && forall c :: c in s ==> !IsAsciiUpper(c)
  }

  /** str.split(c, 1) of a string holding c: the parts before and after the first c. */
  lemma SplitAtFirst(s: string, c: char, before: string, after: string)
    requires s == before + [c] + after && c !in before
    ensures FirstIndexOf(s, c) == |before|
  {
    assert s[..|before|] == before;
    assert s[|before|] == c;
  }

  // ---------------------------------------------------------------------------------
  // is_kebab_case and is_snake_case
  // ---------------------------------------------------------------------------------

  /**
   * The shared test of is_kebab_case (sep '-') and is_snake_case (sep '_'), in the
   * source's order: non-empty, first and last characters in Alnum, no doubled
   * separator, and with separators removed, all of Alnum and lower case.
   */
  predicate IsSeparatedCase(s: string, sep: char) {
    if |s| == 0 then false
    else if !IsAlnum(s[0]) then false
    else if !IsAlnum(s[|s| - 1]) then false
    else if HasDoubled(s, sep) then false
    else
      var trimmed := Without(s, sep);
      AllAlnum(trimmed) && IsLower(trimmed)
  }

  predicate IsKebabCase(s: string) { IsSeparatedCase(s, '-') }
  predicate IsSnakeCase(s: string) { IsSeparatedCase(s, '_') }

  /**
   * What a separated-case name is, character by character: lower-case letters and
   * digits, joined by single separators, neither first nor last, with at least one
   * letter.
   */
  predicate WellSeparated(s: string, sep: char) {
    && |s| > 0 && s[0] != sep && s[|s| - 1] != sep
    && (forall i :: 0 <= i < |s| ==> s[i] == sep || IsAsciiLower(s[i]) || IsDigit(s[i]))
    && (forall i :: 0 <= i < |s| - 1 ==> s[i] == sep ==> s[i + 1] != sep)
    && (exists i :: 0 <= i < |s| && IsAsciiLower(s[i]))
  }

  /**
   * The name test agrees with the character-by-character description. Upper-case
   * letters fail islower, so the gap in Upper does not show here.
   */
  lemma {:induction false} SeparatedCaseCharacterized(s: string, sep: char)
    requires !IsAlnum(sep)
    ensures IsSeparatedCase(s, sep) <==> WellSeparated(s, sep)
  {
    var trimmed := Without(s, sep);
    if IsSeparatedCase(s, sep) {
      forall i | 0 <= i < |s|
        ensures s[i] == sep || IsAsciiLower(s[i]) || IsDigit(s[i])
      {
        if s[i] != sep {
          assert s[i] in trimmed;
        }
      }
      var c :| c in trimmed && IsAsciiLower(c);
      var i :| 0 <= i < |s| && s[i] == c;
    }
    if WellSeparated(s, sep) {
      forall c | c in trimmed
        ensures IsAlnum(c) && !IsAsciiUpper(c)
      {
        var i :| 0 <= i < |s| && s[i] == c;
      }
      var i :| 0 <= i < |s| && IsAsciiLower(s[i]);
      assert s[i] in trimmed;
      assert !HasDoubled(s, sep);
    }
  }

  /** A name holding both '-' and '_' (snake_kebab) is neither kebab nor snake case. */
  lemma MixedCaseRejected(s: string)
    requires '-' in s && '_' in s
    ensures !IsKebabCase(s) && !IsSnakeCase(s)
  {
    SeparatedCaseCharacterized(s, '-');
    SeparatedCaseCharacterized(s, '_');
    var i :| 0 <= i < |s| && s[i] == '_';
    var j :| 0 <= j < |s| && s[j] == '-';
  }

  // ---------------------------------------------------------------------------------
  // The parsed arguments and the four parsers
  // ---------------------------------------------------------------------------------

  datatype Argument =
    | Flag(sentinel: string, name: string, full: string)
    | Assignment(sentinel: string, name: string, flag: string, delimiter: string, value: string, full: string)
    | Value(value: string, full: string)

  /** parse_single_dash_flag: `-c` for one character c of Alpha. */
  function ParseSingleDashFlag(s: string): (r: seq<Argument>)
    ensures |r| <= 1
    ensures r != [] <==> |s| == 2 && s[0] == '-' && IsAlpha(s[1])
    ensures r != [] ==> r[0].Flag? && r[0].sentinel + r[0].name == r[0].full == s && |r[0].name| == 1
  {
    if !StartsWith(s, "-") then []
    else if |s| != 2 then []
    else if !IsAlpha(s[1]) then []
    else [Flag("-", [s[1]], s)]
  }

  /** parse_double_dash_flag: `--name` for a snake or kebab case name starting in Alpha, no '='. */
  function ParseDoubleDashFlag(s: string): (r: seq<Argument>)
    ensures |r| <= 1
    ensures r != [] <==>
      && |s| >= 3 && s[..2] == "--" && IsAlpha(s[2]) && '=' !in s
      && (IsSnakeCase(s[2..]) || IsKebabCase(s[2..]))
    ensures r != [] ==> r[0].Flag? && r[0].sentinel + r[0].name == r[0].full == s && r[0].sentinel == "--"
  {
    if !StartsWith(s, "--") then []
    else if |s| < 3 then []
    else if !IsAlpha(s[2]) then []
    else if '=' in s then []
    else
      var name := s[2..];
      if !(IsSnakeCase(name) || IsKebabCase(name)) then []
      else [Flag("--", name, s)]
  }

  /** parse_single_dash_assignment: `-c=value` for one character c of Alpha; value may be empty. */
  function ParseSingleDashAssignment(s: string): (r: seq<Argument>)
    ensures |r| <= 1
    ensures r != [] <==> |s| >= 3 && s[0] == '-' && IsAlpha(s[1]) && s[2] == '='
    ensures r != [] ==>
      && r[0].Assignment? && r[0].sentinel + r[0].name == r[0].flag
      && r[0].flag + r[0].delimiter + r[0].value == r[0].full == s
      && r[0].sentinel == "-" && r[0].delimiter == "=" && |r[0].name| == 1
  {
    if !StartsWith(s, "-") then []
    else if |s| < 3 then []
    else if !IsAlpha(s[1]) then []
    else if s[2] != '=' then []
    else [Assignment("-", [s[1]], s[..2], "=", s[3..], s)]
  }

  /**
   * parse_double_dash_assignment: `--name=value`, split at the first '=', for a snake
   * or kebab case name starting in Alpha; the value may be empty or hold more '='.
   */
  function ParseDoubleDashAssignment(s: string): (r: seq<Argument>)
    ensures |r| <= 1
    ensures r != [] ==>
      && r[0].Assignment? && r[0].sentinel == "--" && r[0].delimiter == "="
      && r[0].sentinel + r[0].name == r[0].flag
      && r[0].flag + r[0].delimiter + r[0].value == r[0].full == s
      && '=' !in r[0].flag && |r[0].name| >= 1 && IsAlpha(r[0].name[0])
      && (IsSnakeCase(r[0].name) || IsKebabCase(r[0].name))
  {
    if !StartsWith(s, "--") then []
    else if |s| < 4 then []
    else if !IsAlpha(s[2]) then []
    else if '=' !in s then []
    else
      var i := FirstIndexOf(s, '=');
      assert i >= 3 by {
        assert s[..2] == "--";
        assert s[0] != '=' && s[1] != '=';
      }
      var flag, value := s[..i], s[i + 1..];
      var name := flag[2..];
      if !(IsSnakeCase(name) || IsKebabCase(name)) then []
      else
        assert flag + "=" + value == s;
        [Assignment("--", name, flag, "=", value, s)]
  }

  /**
   * The converse of ParseDoubleDashAssignment's contract: every `--name=value` whose
   * name starts in Alpha, holds no '=' and is snake or kebab case is accepted, and the
   * split is at the first '='.
   */
  lemma DoubleDashAssignmentAccepts(name: string, value: string)
    requires |name| >= 1 && IsAlpha(name[0]) && '=' !in name
    requires IsSnakeCase(name) || IsKebabCase(name)
    ensures ParseDoubleDashAssignment("--" + name + "=" + value)
         == [Assignment("--", name, "--" + name, "=", value, "--" + name + "=" + value)]
  {
    var s := "--" + name + "=" + value;
    assert s == ("--" + name) + ['='] + value;
    assert '=' !in "--" + name;
    SplitAtFirst(s, '=', "--" + name, value);
    assert s[..|name| + 2] == "--" + name;
    assert s[|name| + 3..] == value;
    assert ("--" + name)[2..] == name;
    assert s[2] == name[0];
    assert s[..2] == "--";
  }

  /**
   * The value keeps every '=' after the first: `--long=5=5` is accepted with value
   * `5=5`, although the docstring calls it unsupported.
   */
  lemma DoubleDashAssignmentKeepsLaterEquals(name: string, first: string, rest: string)
    requires |name| >= 1 && IsAlpha(name[0]) && '=' !in name
    requires IsSnakeCase(name) || IsKebabCase(name)
    ensures var s := "--" + name + "=" + first + "=" + rest;
      && |ParseDoubleDashAssignment(s)| == 1
      && ParseDoubleDashAssignment(s)[0].name == name
      && ParseDoubleDashAssignment(s)[0].value == first + "=" + rest
  {
    DoubleDashAssignmentAccepts(name, first + "=" + rest);
    assert "--" + name + "=" + first + "=" + rest == "--" + name + "=" + (first + "=" + rest);
  }

  /** A consequence of the gap in Upper: `-W` is no flag, while `-V` is. */
  lemma UpperStopsAtV()
    ensures ParseSingleDashFlag("-W") == [] && ParseSingleDashFlag("-V") != []
  {
    AlphaMembers('W');
    AlphaMembers('V');
  }

  // ---------------------------------------------------------------------------------
  // parse_arguments
  // ---------------------------------------------------------------------------------

  type Parser = string -> seq<Argument>

  /** DEFAULT_ARGUMENT_PARSERS, in priority order. */
  function DefaultParsers(): seq<Parser> {
    [ParseDoubleDashAssignment, ParseSingleDashAssignment, ParseDoubleDashFlag, ParseSingleDashFlag]
  }

  /** What parse_arguments emits for one input: the output of the first parser that yields any, else a value. */
  function ParseOne(input: string, parsers: seq<Parser>): seq<Argument>
    decreases |parsers|
  {
    if parsers == [] then [Value(input, input)]
    else if parsers[0](input) != [] then parsers[0](input)
    else ParseOne(input, parsers[1..])
  }

  /** What parse_arguments emits for all inputs, in input order. */
  function ParseAll(inputs: seq<string>, parsers: seq<Parser>): seq<Argument> {
    if inputs == [] then []
    else ParseAll(inputs[..|inputs| - 1], parsers) + ParseOne(inputs[|inputs| - 1], parsers)
  }

  /**
   * parse_arguments: for each input, try the parsers in order, emit everything the
   * first one that yields gives and stop; when none yields, emit the input as a value.
   */
  method ParseArguments(inputs: seq<string>, parsers: seq<Parser>) returns (args: seq<Argument>)
    ensures args == ParseAll(inputs, parsers)
  {
    args := [];
    for j := 0 to |inputs|
      invariant args == ParseAll(inputs[..j], parsers)
    {
      var input := inputs[j];
      ghost var before := args;
      var k := 0;
      var parsed := false;
      while k < |parsers|
        invariant 0 <= k <= |parsers|
        invariant !parsed ==> args == before && ParseOne(input, parsers[k..]) == ParseOne(input, parsers)
        invariant parsed ==> args == before + ParseOne(input, parsers)
        decreases |parsers| - k
      {
        var output := parsers[k](input);
        for m := 0 to |output|
          invariant args == before + output[..m]
          invariant parsed <==> m > 0
          invariant !parsed ==> args == before
        {
          args := args + [output[m]];
          parsed := true;
        }
        if parsed {
          assert output[..|output|] == output;
          assert ParseOne(input, parsers[k..]) == output;
          break;
        }
        assert parsers[k..][1..] == parsers[k + 1..];
        k := k + 1;
      }
      if !parsed {
        assert parsers[k..] == [];
        args := args + [Value(input, input)];
      }
      assert inputs[..j + 1][..j] == inputs[..j];
    }
    assert inputs[..|inputs|] == inputs;
  }

  /** A parser that yields at most one argument, whose full text is its input. */
  ghost predicate YieldsAtMostOne(p: Parser) {
    forall s :: |p(s)| <= 1 && (p(s) != [] ==> p(s)[0].full == s)
  }

  /** With such parsers, every input gives exactly one argument, whose full text is the input. */
  lemma {:induction false} ParseOneSingle(input: string, parsers: seq<Parser>)
    requires forall k :: 0 <= k < |parsers| ==> YieldsAtMostOne(parsers[k])
    ensures |ParseOne(input, parsers)| == 1 && ParseOne(input, parsers)[0].full == input
    decreases |parsers|
  {
    if parsers != [] && parsers[0](input) == [] {
      ParseOneSingle(input, parsers[1..]);
    }
  }

  /** One argument per input, in input order, each carrying its input as full text. */
  lemma {:induction false} ParseAllOnePerInput(inputs: seq<string>, parsers: seq<Parser>)
    requires forall k :: 0 <= k < |parsers| ==> YieldsAtMostOne(parsers[k])
    ensures |ParseAll(inputs, parsers)| == |inputs|
    ensures forall j :: 0 <= j < |inputs| ==> ParseAll(inputs, parsers)[j].full == inputs[j]
  {
    if inputs != [] {
      var init := inputs[..|inputs| - 1];
      ParseAllOnePerInput(init, parsers);
      ParseOneSingle(inputs[|inputs| - 1], parsers);
      forall j | 0 <= j < |inputs|
        ensures ParseAll(inputs, parsers)[j].full == inputs[j]
      {
        if j < |init| {
          assert inputs[j] == init[j];
        }
      }
    }
  }

  /** The default parsers each yield at most one argument carrying its input. */
  lemma DefaultParsersYieldAtMostOne()
    ensures forall k :: 0 <= k < |DefaultParsers()| ==> YieldsAtMostOne(DefaultParsers()[k])
  {
    assert YieldsAtMostOne(ParseDoubleDashAssignment);
    assert YieldsAtMostOne(ParseSingleDashAssignment);
    assert YieldsAtMostOne(ParseDoubleDashFlag);
    assert YieldsAtMostOne(ParseSingleDashFlag);
  }

  /** With the default parsers, parse_arguments emits one argument per input, in input order. */
  lemma DefaultParseOnePerInput(inputs: seq<string>)
    ensures |ParseAll(inputs, DefaultParsers())| == |inputs|
    ensures forall j :: 0 <= j < |inputs| ==> ParseAll(inputs, DefaultParsers())[j].full == inputs[j]
  {
    DefaultParsersYieldAtMostOne();
    ParseAllOnePerInput(inputs, DefaultParsers());
  }

  /**
   * No input is accepted by two of the default parsers, so their priority order never
   * decides between two readings.
   */
  lemma DefaultParsersDisjoint(s: string)
    ensures forall i, j :: 0 <= i < j < |DefaultParsers()| ==>
      DefaultParsers()[i](s) == [] || DefaultParsers()[j](s) == []
  {
  }

  /**
   * An input no default parser accepts becomes a value; otherwise the accepting
   * parser's one argument is emitted.
   */
  lemma DefaultParseOne(s: string)
    ensures (forall k :: 0 <= k < |DefaultParsers()| ==> DefaultParsers()[k](s) == [])
        ==> ParseOne(s, DefaultParsers()) == [Value(s, s)]
    ensures forall k :: 0 <= k < |DefaultParsers()| && DefaultParsers()[k](s) != [] ==>
        ParseOne(s, DefaultParsers()) == DefaultParsers()[k](s)
  {
    DefaultParsersDisjoint(s);
    var ps := DefaultParsers();
    assert ps[1..][1..][1..][1..] == [];
  }
}

/**
 The three cell patterns of the validator, written as a small regular-expression
 language with its matching semantics. This is the reference against which the
 explicit cell rules in module CellRules are proved equivalent.

 Only the constructs the three patterns use are modelled: a character class
 repeated a fixed number of times (`\d{4}`, a literal `-`), a character class
 repeated one or more times (`[a-zA-Z]+`, `\d+`), and the two ways of running a
 pattern — anchored at the start only (`re.match`) or at both ends (`^...$`).
 */
module Regex {

  /** `\d` (ASCII digits only), `[a-zA-Z]`, or one literal character. */
  datatype CharClass = AnyDigit | AnyLetter | Literal(c: char)

  /** `cls{n}` or `cls+`. */
  datatype Piece = Repeat(cls: CharClass, n: nat) | OneOrMore(cls: CharClass)

  type Pattern = seq<Piece>

  predicate IsAsciiDigit(c: char) {
    '0' <= c <= '9'
  }

  predicate IsAsciiLetter(c: char) {
    'a' <= c <= 'z' || 'A' <= c <= 'Z'
  }

  predicate InClass(cls: CharClass, c: char) {
    match cls
    case AnyDigit => IsAsciiDigit(c)
    case AnyLetter => IsAsciiLetter(c)
    case Literal(d) => c == d
  }

  predicate AllInClass(cls: CharClass, s: string) {
    forall i :: 0 <= i < |s| ==> InClass(cls, s[i])
  }

  /** The pattern matches the whole of `s`. */
  predicate MatchesAll(p: Pattern, s: string)
    decreases |p|
  {
    if p == [] then s == []
    else match p[0]
      case Repeat(cls, n) =>
        n <= |s| && AllInClass(cls, s[..n]) && MatchesAll(p[1..], s[n..])
      case OneOrMore(cls) =>
        exists j :: 1 <= j <= |s| && AllInClass(cls, s[..j]) && MatchesAll(p[1..], s[j..])
  }

  /** Python's `re.match`: the pattern matches some prefix of `s`. */
  predicate MatchAtStart(p: Pattern, s: string) {
    exists k :: 0 <= k <= |s| && MatchesAll(p, s[..k])
  }

  /**
   Python's `re.match` of `^p$`: `$` matches at the end of the string or just
   before a newline that ends it.
   */
  predicate MatchWholePython(p: Pattern, s: string) {
    MatchesAll(p, s) || (0 < |s| && s[|s| - 1] == '\n' && MatchesAll(p, s[..|s| - 1]))
  }

  /** `\d{4}-\d{2}-\d{2}` */
  const DATE_PATTERN: Pattern :=
    [Repeat(AnyDigit, 4), Repeat(Literal('-'), 1), Repeat(AnyDigit, 2),
     Repeat(Literal('-'), 1), Repeat(AnyDigit, 2)]

  /** `^[a-zA-Z]+$` */
  const WORKFLOW_PATTERN: Pattern := [OneOrMore(AnyLetter)]

  /** `^\d+$` */
  const QUANTITY_PATTERN: Pattern := [OneOrMore(AnyDigit)]

  /** A lone `cls+` matches exactly the non-empty strings drawn from `cls`. */
  lemma MatchesOneOrMoreAlone(cls: CharClass, s: string)
    ensures MatchesAll([OneOrMore(cls)], s) <==> 0 < |s| && AllInClass(cls, s)
  {
    var p := [OneOrMore(cls)];
    assert p[1..] == [];
    if MatchesAll(p, s) {
      var j :| 1 <= j <= |s| && AllInClass(cls, s[..j]) && MatchesAll(p[1..], s[j..]);
      assert j == |s|;
      assert s[..j] == s;
    }
    if 0 < |s| && AllInClass(cls, s) {
      assert s[..|s|] == s && s[|s|..] == [];
      assert AllInClass(cls, s[..|s|]) && MatchesAll(p[1..], s[|s|..]);
    }
  }
}

/**
 The per-cell rules of `validate_data` as explicit predicates on strings, each
 proved equal to the outcome of running the source's regular expression the way
 the source runs it, with `$` read as the end of the string
 (WorkflowTrailingNewlineGap states what Python's `$` adds).
 */
module CellRules {
  import opened Regex

  /** `s` starts with DDDD-DD-DD; anything may follow. */
  predicate IsDatePrefix(s: string) {
    && 10 <= |s|
    && IsAsciiDigit(s[0]) && IsAsciiDigit(s[1]) && IsAsciiDigit(s[2]) && IsAsciiDigit(s[3])
    && s[4] == '-'
    && IsAsciiDigit(s[5]) && IsAsciiDigit(s[6])
    && s[7] == '-'
    && IsAsciiDigit(s[8]) && IsAsciiDigit(s[9])
  }

  /** One or more ASCII letters and nothing else. */
  predicate IsLetters(s: string) {
    0 < |s| && forall i :: 0 <= i < |s| ==> IsAsciiLetter(s[i])
  }

  /** One or more ASCII digits and nothing else. */
  predicate IsDigits(s: string) {
    0 < |s| && forall i :: 0 <= i < |s| ==> IsAsciiDigit(s[i])
  }

  /** Unfolding `cls{1}` at the head of a pattern. */
  lemma MatchesOneHead(cls: CharClass, rest: Pattern, u: string)
    ensures MatchesAll([Repeat(cls, 1)] + rest, u)
        <==> 1 <= |u| && InClass(cls, u[0]) && MatchesAll(rest, u[1..])
  {
  }

  /** Unfolding `\d{2}` at the head of a pattern. */
  lemma MatchesTwoDigitsHead(rest: Pattern, u: string)
    ensures MatchesAll([Repeat(AnyDigit, 2)] + rest, u)
        <==> 2 <= |u| && IsAsciiDigit(u[0]) && IsAsciiDigit(u[1]) && MatchesAll(rest, u[2..])
  {
  }

  /** Unfolding `\d{4}` at the head of a pattern. */
  lemma MatchesFourDigitsHead(rest: Pattern, u: string)
    ensures MatchesAll([Repeat(AnyDigit, 4)] + rest, u)
        <==> && 4 <= |u|
             && IsAsciiDigit(u[0]) && IsAsciiDigit(u[1]) && IsAsciiDigit(u[2]) && IsAsciiDigit(u[3])
             && MatchesAll(rest, u[4..])
  {
  }

  /** `\d{2}` alone: exactly two digits. */
  lemma DateDaySuffix(u: string)
    ensures MatchesAll([Repeat(AnyDigit, 2)], u)
        <==> |u| == 2 && IsAsciiDigit(u[0]) && IsAsciiDigit(u[1])
  {
  }

  /** `-\d{2}`: exactly a dash and two digits. */
  lemma DateDashDaySuffix(u: string)
    ensures MatchesAll([Repeat(Literal('-'), 1), Repeat(AnyDigit, 2)], u)
        <==> |u| == 3 && u[0] == '-' && IsAsciiDigit(u[1]) && IsAsciiDigit(u[2])
  {
    assert [Repeat(Literal('-'), 1), Repeat(AnyDigit, 2)]
        == [Repeat(Literal('-'), 1)] + [Repeat(AnyDigit, 2)];
    MatchesOneHead(Literal('-'), [Repeat(AnyDigit, 2)], u);
    if 1 <= |u| {
      DateDaySuffix(u[1..]);
    }
  }

  /** `\d{2}-\d{2}`: exactly five characters DD-DD. */
  lemma DateMonthSuffix(u: string)
    ensures MatchesAll([Repeat(AnyDigit, 2), Repeat(Literal('-'), 1), Repeat(AnyDigit, 2)], u)
        <==> && |u| == 5 && IsAsciiDigit(u[0]) && IsAsciiDigit(u[1])
             && u[2] == '-' && IsAsciiDigit(u[3]) && IsAsciiDigit(u[4])
  {
    var rest := [Repeat(Literal('-'), 1), Repeat(AnyDigit, 2)];
    assert [Repeat(AnyDigit, 2), Repeat(Literal('-'), 1), Repeat(AnyDigit, 2)]
        == [Repeat(AnyDigit, 2)] + rest;
    MatchesTwoDigitsHead(rest, u);
    if 2 <= |u| {
      DateDashDaySuffix(u[2..]);
    }
  }

  /** `-\d{2}-\d{2}`: exactly six characters -DD-DD. */
  lemma DateDashMonthSuffix(u: string)
    ensures MatchesAll(DATE_PATTERN[1..], u)
        <==> && |u| == 6 && u[0] == '-' && IsAsciiDigit(u[1]) && IsAsciiDigit(u[2])
             && u[3] == '-' && IsAsciiDigit(u[4]) && IsAsciiDigit(u[5])
  {
    var rest := [Repeat(AnyDigit, 2), Repeat(Literal('-'), 1), Repeat(AnyDigit, 2)];
    assert DATE_PATTERN[1..] == [Repeat(Literal('-'), 1)] + rest;
    MatchesOneHead(Literal('-'), rest, u);
    if 1 <= |u| {
      DateMonthSuffix(u[1..]);
    }
  }

  /** The whole-string shape of a date: exactly ten characters DDDD-DD-DD. */
  lemma DatePatternMatchesAll(t: string)
    ensures MatchesAll(DATE_PATTERN, t) <==> |t| == 10 && IsDatePrefix(t)
  {
    assert DATE_PATTERN == [Repeat(AnyDigit, 4)] + DATE_PATTERN[1..];
    MatchesFourDigitsHead(DATE_PATTERN[1..], t);
    if 4 <= |t| {
      DateDashMonthSuffix(t[4..]);
    }
  }

  /** The DATE rule is `re.match` of `\d{4}-\d{2}-\d{2}`: a prefix test. */
  lemma DateRuleIsRegexMatch(s: string)
    ensures MatchAtStart(DATE_PATTERN, s) <==> IsDatePrefix(s)
  {
    if MatchAtStart(DATE_PATTERN, s) {
      var k :| 0 <= k <= |s| && MatchesAll(DATE_PATTERN, s[..k]);
      DatePatternMatchesAll(s[..k]);
      assert forall i :: 0 <= i < k ==> s[..k][i] == s[i];
    }
    if IsDatePrefix(s) {
      DatePatternMatchesAll(s[..10]);
      assert forall i :: 0 <= i < 10 ==> s[..10][i] == s[i];
      assert MatchesAll(DATE_PATTERN, s[..10]);
    }
  }

  /** The WORKFLOW rule is a whole-string match of `[a-zA-Z]+`. */
  lemma WorkflowRuleIsRegexMatch(s: string)
    ensures MatchesAll(WORKFLOW_PATTERN, s) <==> IsLetters(s)
  {
    MatchesOneOrMoreAlone(AnyLetter, s);
  }

  /** The QUANTITY rule is a whole-string match of `\d+`. */
  lemma QuantityRuleIsRegexMatch(s: string)
    ensures MatchesAll(QUANTITY_PATTERN, s) <==> IsDigits(s)
  {
    MatchesOneOrMoreAlone(AnyDigit, s);
  }

  /**
   What reading `$` as "end of string" gives up: Python's `^[a-zA-Z]+$` also
   accepts a run of letters followed by one final newline.
   */
  lemma WorkflowTrailingNewlineGap(s: string)
    ensures MatchWholePython(WORKFLOW_PATTERN, s)
        <==> IsLetters(s) || (0 < |s| && s[|s| - 1] == '\n' && IsLetters(s[..|s| - 1]))
  {
    WorkflowRuleIsRegexMatch(s);
    if 0 < |s| {
      WorkflowRuleIsRegexMatch(s[..|s| - 1]);
    }
  }

  /** Text after a well-formed date is not looked at. */
  lemma DateRuleExamples()
    ensures IsDatePrefix("2025-03-03")
    ensures IsDatePrefix("2025-03-03XYZ")
    ensures !IsDatePrefix("2025-3-03")
    ensures !IsDatePrefix("03/03/2025")
  {
  }

  /** Letters only: underscore, space and punctuation are rejected. */
  lemma WorkflowRuleExamples()
    ensures IsLetters("Shipping")
    ensures !IsLetters("order processing")
    ensures !IsLetters("order_processing")
    ensures !IsLetters("")
  {
    assert "order processing"[5] == ' ';
    assert "order_processing"[5] == '_';
  }

  /**
   A missing cell reaches the rules as the text "nan": it passes the WORKFLOW
   rule and fails the DATE and QUANTITY rules.
   */
  lemma MissingCellText()
    ensures IsLetters("nan")
    ensures !IsDatePrefix("nan")
    ensures !IsDigits("nan")
  {
    assert "nan"[0] == 'n';
  }

  /** No sign, no decimal point, no empty value. */
  lemma QuantityRuleExamples()
    ensures IsDigits("42")
    ensures !IsDigits("12.5")
    ensures !IsDigits("-3")
    ensures !IsDigits("abc")
    ensures !IsDigits("")
  {
    assert "12.5"[2] == '.';
    assert "-3"[0] == '-';
    assert "abc"[0] == 'a';
  }
}

/**
  `get_category`: the number-format class of one cell value. Missing and
  typed values are classified by their type; text goes through an ordered
  list of patterns in which the first one that matches wins, then through
  pandas' date-format guesser, and otherwise is "Other".

  The patterns are written out below as predicates over the text, each one
  following the regular expression the cascade uses, read with Python's
  `re.match` semantics: the match starts at the first character, and `$`
  matches at the end of the text or just before a final "\n".
 */
module Categories {
  import opened Wrappers
  import opened Strings
  import opened Cells

  /** The labels `get_category` returns; `Guessed` carries a date format found by the guesser. */
  datatype Category =
    | Other | Float | Integer | DateTime | Percentage | Currency | Scientific | Email
    | Guessed(format: string)

  /** The label as text, as it appears in the written areas. */
  function CategoryText(c: Category): string
  {
    match c
    case Other => "Other"
    case Float => "Float"
    case Integer => "Integer"
    case DateTime => "yyyy/mm/dd"
    case Percentage => "Percentage"
    case Currency => "Currency"
    case Scientific => "Scientific Notation"
    case Email => "Email"
    case Guessed(f) => f
  }

  // Pattern building blocks.

  /** The pattern matches the whole text, or the whole text but a final "\n" (Python's `$`). */
  predicate EndMatch(body: string -> bool, s: string)
  {
    body(s) || (|s| > 0 && s[|s| - 1] == '\n' && body(s[..|s| - 1]))
  }

  /** The text after an optional leading `+` or `-` (`[-+]?`). */
  function StripSign(s: string): (t: string)
    ensures |t| <= |s|
  {
    if |s| > 0 && (s[0] == '+' || s[0] == '-') then s[1..] else s
  }

  /** Number of ASCII digits at the start of `s`. */
  function DigitRun(s: string): (k: nat)
    ensures k <= |s| && AllDigits(s[..k])
    ensures k < |s| ==> !IsDigit(s[k])
  {
    if |s| == 0 || !IsDigit(s[0]) then 0
    else
      var k := DigitRun(s[1..]);
      assert s[..k + 1] == [s[0]] + s[1..][..k];
      1 + k
  }

  /** `\d{1,3}(,\d{3})*`: one to three digits, then groups of exactly three after commas. */
  predicate Grouped3(s: string)
  {
    var gs := SplitOn(s, ',');
    && 1 <= |gs[0]| <= 3 && AllDigits(gs[0])
    && forall i :: 1 <= i < |gs| ==> |gs[i]| == 3 && AllDigits(gs[i])
  }

  // The bodies of the anchored patterns, in the order the cascade tries them.

  /** `(\+|-)?\d+` */
  predicate SignedDigits(s: string)
  {
    var u := StripSign(s);
    |u| > 0 && AllDigits(u)
  }

  /** `\d{1,3}(,\d{1,3})*` */
  predicate LooseGroups(s: string)
  {
    var gs := SplitOn(s, ',');
    forall i :: 0 <= i < |gs| ==> 1 <= |gs[i]| <= 3 && AllDigits(gs[i])
  }

  /** `[-+]?\d*\.?\d*`: note that every part is optional. */
  predicate PlainDecimal(s: string)
  {
    var ps := SplitOn(StripSign(s), '.');
    |ps| <= 2 && forall i :: 0 <= i < |ps| ==> AllDigits(ps[i])
  }

  /** `\d{1,3}(,\d{3})*(\.\d+)?` */
  predicate GroupedDecimal(s: string)
  {
    var ps := SplitOn(s, '.');
    || (|ps| == 1 && Grouped3(ps[0]))
    || (|ps| == 2 && Grouped3(ps[0]) && |ps[1]| > 0 && AllDigits(ps[1]))
  }

  /** `[-+]?\d*\.?\d*%` */
  predicate PlainPercent(s: string)
  {
    |s| > 0 && s[|s| - 1] == '%' && PlainDecimal(s[..|s| - 1])
  }

  /** `\d{1,3}(,\d{3})*(\.\d+)?%` */
  predicate GroupedPercent(s: string)
  {
    |s| > 0 && s[|s| - 1] == '%' && GroupedDecimal(s[..|s| - 1])
  }

  /** `\d*\.?\d{2}`: digits with at least two of them after the point, or at least two digits and no point. */
  predicate CentsAmount(s: string)
  {
    var ps := SplitOn(s, '.');
    || (|ps| == 1 && |s| >= 2 && AllDigits(s))
    || (|ps| == 2 && AllDigits(ps[0]) && |ps[1]| == 2 && AllDigits(ps[1]))
  }

  /** `[-+]?[$]\d*\.?\d{2}` */
  predicate PlainCurrency(s: string)
  {
    var u := StripSign(s);
    |u| > 0 && u[0] == '$' && CentsAmount(u[1..])
  }

  /** `[-+]?[$]\d{1,3}(,\d{3})*(\.\d{2})?` */
  predicate GroupedCurrency(s: string)
  {
    var u := StripSign(s);
    && |u| > 0 && u[0] == '$'
    && var ps := SplitOn(u[1..], '.');
    || (|ps| == 1 && Grouped3(ps[0]))
    || (|ps| == 2 && Grouped3(ps[0]) && |ps[1]| == 2 && AllDigits(ps[1]))
  }

  /** The backspace character U+0008, which `'\b'` denotes in a non-raw Python string. */
  const Backspace: char := '\U{8}'

  /** `[Ee][-+]?\d+` followed by a backspace. */
  predicate ExponentThenBackspace(s: string)
  {
    && |s| > 0 && (s[0] == 'E' || s[0] == 'e')
    && var u := StripSign(s[1..]);
    && var k := DigitRun(u);
    && 0 < k < |u| && u[k] == Backspace
  }

  /** `(?:\.\d+)?` then the exponent. */
  predicate FractionThenExponent(s: string)
  {
    if |s| > 0 && s[0] == '.' then
      var k := DigitRun(s[1..]);
      k > 0 && ExponentThenBackspace(s[1 + k..])
    else ExponentThenBackspace(s)
  }

  /**
    `\b-?[1-9](?:\.\d+)?[Ee][-+]?\d+\b` from the start of the text, with no
    end anchor; both `\b` are backspace characters.
   */
  predicate ScientificPrefix(s: string)
  {
    && |s| > 0 && s[0] == Backspace
    && var u := if |s| > 1 && s[1] == '-' then s[2..] else s[1..];
    && |u| > 0 && '1' <= u[0] <= '9'
    && FractionThenExponent(u[1..])
  }

  /** `\w` restricted to ASCII: letters, digits and the underscore. */
  predicate IsWordChar(c: char)
  {
    ('a' <= c <= 'z') || ('A' <= c <= 'Z') || IsDigit(c) || c == '_'
  }

  /** The class `[!#$%&'*+\-/=?^_`{|}~\w]` of the e-mail pattern's local part. */
  predicate IsLocalChar(c: char)
  {
    IsWordChar(c) || c in "!#$%&'*+-/=?^_`{|}~"
  }

  /** The local part: one local character, or two with any local characters and dots between them. */
  predicate LocalPart(s: string)
  {
    && |s| > 0 && IsLocalChar(s[0]) && IsLocalChar(s[|s| - 1])
    && forall i :: 0 <= i < |s| ==> IsLocalChar(s[i]) || s[i] == '.'
  }

  /** `\w+(-\w+)*`: word runs joined by single hyphens. */
  predicate HyphenatedWord(s: string)
  {
    var rs := SplitOn(s, '-');
    forall i :: 0 <= i < |rs| ==> |rs[i]| > 0 && forall j :: 0 <= j < |rs[i]| ==> IsWordChar(rs[i][j])
  }

  /** `\w+([-.]\w+)*\.\w+([-.]\w+)*`: word runs joined by single hyphens or dots, with at least one dot. */
  predicate DomainPart(s: string)
  {
    var ls := SplitOn(s, '.');
    |ls| >= 2 && forall i :: 0 <= i < |ls| ==> HyphenatedWord(ls[i])
  }

  /** The RFC 2821 style e-mail pattern: a local part, one `@`, then a dotted domain. */
  predicate EmailAddress(s: string)
  {
    var ps := SplitOn(s, '@');
    |ps| == 2 && LocalPart(ps[0]) && DomainPart(ps[1])
  }

  // The cascade.

  predicate IsIntegerText(s: string)
  {
    EndMatch(SignedDigits, s) || EndMatch(LooseGroups, s)
  }

  predicate IsFloatText(s: string)
  {
    EndMatch(PlainDecimal, s) || EndMatch(GroupedDecimal, s)
  }

  predicate IsPercentText(s: string)
  {
    EndMatch(PlainPercent, s) || EndMatch(GroupedPercent, s)
  }

  predicate IsCurrencyText(s: string)
  {
    EndMatch(PlainCurrency, s) || EndMatch(GroupedCurrency, s)
  }

  predicate IsEmailText(s: string)
  {
    EndMatch(EmailAddress, s)
  }

  /**
    The classification of a text cell. `guess` stands for pandas'
    `guess_datetime_format`; an empty guess is falsy and falls through.
   */
  function TextCategory(s: string, guess: string -> Option<string>): (c: Category)
    ensures CategoryText(c) != ""
    ensures c.Guessed? ==> guess(s) == Some(c.format)
  {
    if IsIntegerText(s) then Integer
    else if IsFloatText(s) then Float
    else if IsPercentText(s) then Percentage
    else if IsCurrencyText(s) then Currency
    else if ScientificPrefix(s) then Scientific
    else if IsEmailText(s) then Email
    else match guess(s)
      case Some(f) => if f != "" then Guessed(f) else Other
      case None => Other
  }

  /** `get_category(x)`: a missing value first, then the value's type, then the text cascade. */
  function GetCategory(v: Value, guess: string -> Option<string>): (c: Category)
    ensures CategoryText(c) != ""
    ensures v.Missing? ==> c == Other
    ensures v.Flt? ==> c == Float
    ensures v.Int? || v.Bool? ==> c == Integer
    ensures v.Date? ==> c == DateTime
    ensures c.Guessed? ==> v.Text? && guess(v.s) == Some(c.format)
  {
    match v
    case Missing => Other
    case Flt(_) => Float
    case Int(_) => Integer
    case Bool(_) => Integer
    case Date(_) => DateTime
    case Text(s) => TextCategory(s, guess)
  }

  // An independent statement of the cascade: a table of (test, label) rules read top to bottom.

  datatype Rule = Rule(test: string -> bool, verdict: Category)

  /** The pattern rules in the cascade's order. */
  function Rules(): seq<Rule>
  {
    [ Rule(IsIntegerText, Integer), Rule(IsFloatText, Float), Rule(IsPercentText, Percentage),
      Rule(IsCurrencyText, Currency), Rule(ScientificPrefix, Scientific), Rule(IsEmailText, Email) ]
  }

  /** The verdict of the first rule from position `k` on whose test holds, if any. */
  function FirstMatchFrom(rules: seq<Rule>, k: nat, s: string): Option<Category>
    decreases |rules| - k
  {
    if k >= |rules| then None
    else if rules[k].test(s) then Some(rules[k].verdict)
    else FirstMatchFrom(rules, k + 1, s)
  }

  /** The verdict of the first rule whose test holds, if any. */
  function FirstMatch(rules: seq<Rule>, s: string): Option<Category>
  {
    FirstMatchFrom(rules, 0, s)
  }

  /** Scanning from `k` answers exactly when a rule from `k` on holds, with the verdict of the earliest one. */
  lemma {:induction false} FirstMatchFromSpec(rules: seq<Rule>, k: nat, s: string)
    ensures FirstMatchFrom(rules, k, s).Some? <==> exists i :: k <= i < |rules| && rules[i].test(s)
    ensures FirstMatchFrom(rules, k, s).Some? ==>
      exists i :: k <= i < |rules| && rules[i].test(s) && FirstMatchFrom(rules, k, s).value == rules[i].verdict
                  && forall j :: k <= j < i ==> !rules[j].test(s)
    decreases |rules| - k
  {
    if k < |rules| {
      if !rules[k].test(s) {
        FirstMatchFromSpec(rules, k + 1, s);
        if FirstMatchFrom(rules, k, s).Some? {
          var i :| k + 1 <= i < |rules| && rules[i].test(s) && FirstMatchFrom(rules, k, s).value == rules[i].verdict
                   && forall j :: k + 1 <= j < i ==> !rules[j].test(s);
          assert forall j :: k <= j < i ==> !rules[j].test(s);
        }
      }
    }
  }

  /** `FirstMatch` answers exactly when some rule holds, with the verdict of the earliest one that does. */
  lemma FirstMatchSpec(rules: seq<Rule>, s: string)
    ensures FirstMatch(rules, s).Some? <==> exists i :: 0 <= i < |rules| && rules[i].test(s)
    ensures FirstMatch(rules, s).Some? ==>
      exists i :: 0 <= i < |rules| && rules[i].test(s) && FirstMatch(rules, s).value == rules[i].verdict
                  && forall j :: 0 <= j < i ==> !rules[j].test(s)
  {
    FirstMatchFromSpec(rules, 0, s);
  }

  /** The cascade is first-match-wins over the rule table, then the date guesser, then "Other". */
  lemma CascadeIsFirstMatch(s: string, guess: string -> Option<string>)
    ensures FirstMatch(Rules(), s).Some? ==> TextCategory(s, guess) == FirstMatch(Rules(), s).value
    ensures FirstMatch(Rules(), s).None? ==>
      TextCategory(s, guess) == (if guess(s).Some? && guess(s).value != "" then Guessed(guess(s).value) else Other)
  {
    SixRules(Rules(), s);
  }

  /** A table of six rules, unrolled. */
  lemma SixRules(rules: seq<Rule>, s: string)
    requires |rules| == 6
    ensures FirstMatch(rules, s) ==
      if rules[0].test(s) then Some(rules[0].verdict)
      else if rules[1].test(s) then Some(rules[1].verdict)
      else if rules[2].test(s) then Some(rules[2].verdict)
      else if rules[3].test(s) then Some(rules[3].verdict)
      else if rules[4].test(s) then Some(rules[4].verdict)
      else if rules[5].test(s) then Some(rules[5].verdict)
      else None
  {
    assert FirstMatchFrom(rules, 6, s) == None;
    assert FirstMatchFrom(rules, 5, s) == if rules[5].test(s) then Some(rules[5].verdict) else None;
    assert FirstMatchFrom(rules, 4, s) == if rules[4].test(s) then Some(rules[4].verdict) else FirstMatchFrom(rules, 5, s);
    assert FirstMatchFrom(rules, 3, s) == if rules[3].test(s) then Some(rules[3].verdict) else FirstMatchFrom(rules, 4, s);
    assert FirstMatchFrom(rules, 2, s) == if rules[2].test(s) then Some(rules[2].verdict) else FirstMatchFrom(rules, 3, s);
    assert FirstMatchFrom(rules, 1, s) == if rules[1].test(s) then Some(rules[1].verdict) else FirstMatchFrom(rules, 2, s);
  }

  // What the patterns, as written, do to particular texts.

  /** A text whose first character is no digit, sign, point or comma matches none of the integer and float bodies. */
  lemma NoNumberBody(t: string)
    requires |t| > 0 && !IsDigit(t[0]) && t[0] !in "+-.,"
    ensures !SignedDigits(t) && !LooseGroups(t) && !PlainDecimal(t) && !GroupedDecimal(t)
  {
    assert StripSign(t) == t;
    FirstPieceStartsWith(t, ',');
    FirstPieceStartsWith(t, '.');
    var p := SplitOn(t, '.')[0];
    FirstPieceStartsWith(p, ',');
    assert !AllDigits(SplitOn(t, ',')[0]);
    assert !AllDigits(SplitOn(t, '.')[0]);
    assert !AllDigits(SplitOn(p, ',')[0]);
  }

  /** A text that starts with `$` is no integer, float or percentage. */
  lemma DollarIsNotNumeric(s: string)
    requires |s| > 0 && s[0] == '$'
    ensures !IsIntegerText(s) && !IsFloatText(s) && !IsPercentText(s)
  {
    NoNumberBody(s);
    if |s| > 1 {
      NoNumberBody(s[..|s| - 1]);
    }
    if |s| > 2 {
      var t := s[..|s| - 1];
      assert t[..|t| - 1] == s[..|s| - 2];
      NoNumberBody(t[..|t| - 1]);
    }
  }

  /** The everyday examples land in the classes their names promise. */
  lemma TypicalTexts(guess: string -> Option<string>)
    ensures TextCategory("123", guess) == Integer
    ensures TextCategory("12.5", guess) == Float
    ensures TextCategory("45%", guess) == Percentage
    ensures TextCategory("$12.34", guess) == Currency
    ensures TextCategory("a@b.com", guess) == Email
  {
    DigitsAreIntegers("123", guess);
    DecimalIsFloat(guess);
    PercentExample(guess);
    CurrencyExample(guess);
    EmailExample(guess);
  }

  lemma PercentExample(guess: string -> Option<string>)
    ensures TextCategory("45%", guess) == Percentage
  {
    var s := "45%";
    assert s[2] == '%' && StripSign(s) == s && !AllDigits(s);
    SplitOnWithout(s, ',');
    SplitOnWithout(s, '.');
    assert SplitOn(s, ',')[0] == s && SplitOn(s, '.')[0] == s;
    assert !IsIntegerText(s);
    assert !IsFloatText(s);
    assert s[..2] == "45" && StripSign("45") == "45";
    SplitOnWithout("45", '.');
    assert PlainPercent(s);
  }

  lemma CurrencyExample(guess: string -> Option<string>)
    ensures TextCategory("$12.34", guess) == Currency
  {
    var s := "$12.34";
    DollarIsNotNumeric(s);
    assert StripSign(s) == s && s[1..] == "12.34";
    CentsExample();
  }

  lemma CentsExample()
    ensures CentsAmount("12.34")
  {
    assert "12.34" == "12" + ['.'] + "34";
    SplitOnFirst("12", '.', "34");
    assert "34"[0] == '3' && "34"[1] == '4';
    SplitOnWithout("34", '.');
  }

  lemma EmailExample(guess: string -> Option<string>)
    ensures TextCategory("a@b.com", guess) == Email
  {
    var s := "a@b.com";
    assert s[0] == 'a' && s[6] == 'm';
    EmailExampleIsNoNumber();
    assert !IsPercentText(s);
    assert StripSign(s) == s && !IsCurrencyText(s);
    assert !ScientificPrefix(s);
    EmailExampleMatches();
  }

  lemma EmailExampleIsNoNumber()
    ensures !IsIntegerText("a@b.com") && !IsFloatText("a@b.com")
  {
    var s := "a@b.com";
    assert s[0] == 'a' && s[6] == 'm';
    NoNumberBody(s);
  }

  lemma EmailExampleMatches()
    ensures EmailAddress("a@b.com")
  {
    var s := "a@b.com";
    assert s == "a" + ['@'] + "b.com";
    SplitOnFirst("a", '@', "b.com");
    SplitOnWithout("b.com", '@');
    assert SplitOn(s, '@') == ["a", "b.com"];
    DomainExample();
    assert LocalPart("a");
  }

  lemma DomainExample()
    ensures DomainPart("b.com")
  {
    assert "b.com" == "b" + ['.'] + "com";
    SplitOnFirst("b", '.', "com");
    SplitOnWithout("com", '.');
    WordIsHyphenated("b");
    WordIsHyphenated("com");
  }

  lemma WordIsHyphenated(w: string)
    requires |w| > 0 && forall i :: 0 <= i < |w| ==> IsWordChar(w[i])
    ensures HyphenatedWord(w)
  {
    SplitOnWithout(w, '-');
  }

  lemma DecimalIsFloat(guess: string -> Option<string>)
    ensures TextCategory("12.5", guess) == Float
  {
    DecimalIsNoInteger();
    DecimalIsPlainDecimal();
  }

  lemma DecimalIsNoInteger()
    ensures !IsIntegerText("12.5")
  {
    var f := "12.5";
    assert f[3] != '\n' && StripSign(f) == f;
    assert !IsDigit(f[2]) && !AllDigits(f);
    SplitOnWithout(f, ',');
    assert SplitOn(f, ',')[0] == f;
  }

  lemma DecimalIsPlainDecimal()
    ensures PlainDecimal("12.5")
  {
    var f := "12.5";
    assert StripSign(f) == f;
    assert f == "12" + ['.'] + "5";
    SplitOnFirst("12", '.', "5");
    SplitOnWithout("5", '.');
    assert SplitOn(f, '.') == ["12", "5"];
  }

  /** A sign alone is no integer but matches the plain decimal pattern, every part of which is optional. */
  lemma SignAloneIsFloat(s: string, guess: string -> Option<string>)
    requires s == "+" || s == "-"
    ensures TextCategory(s, guess) == Float
  {
    assert |s| == 1 && s[0] != '\n' && !IsDigit(s[0]);
    assert StripSign(s) == "";
    SplitOnWithout(s, ',');
    assert SplitOn(s, ',')[0] == s && !AllDigits(s);
    assert !LooseGroups(s);
    assert !IsIntegerText(s);
    SplitOnWithout("", '.');
    assert PlainDecimal(s);
  }

  /** Every part of the plain decimal pattern is optional, so these degenerate texts are floats. */
  lemma DegenerateFloats(guess: string -> Option<string>)
    ensures TextCategory("", guess) == Float
    ensures TextCategory("+", guess) == Float
    ensures TextCategory("-", guess) == Float
    ensures TextCategory(".", guess) == Float
  {
    SplitOnWithout("", ',');
    SplitOnWithout("", '.');
    SignAloneIsFloat("+", guess);
    SignAloneIsFloat("-", guess);
    PointAloneIsFloat(guess);
  }

  lemma PointAloneIsFloat(guess: string -> Option<string>)
    ensures TextCategory(".", guess) == Float
  {
    var d := ".";
    assert |d| == 1 && d[0] == '.' && !IsDigit(d[0]);
    SplitOnWithout(d, ',');
    assert SplitOn(d, ',')[0] == d && !AllDigits(d);
    assert !IsIntegerText(d);
    assert d == "" + ['.'] + "";
    SplitOnFirst("", '.', "");
    assert PlainDecimal(d);
  }

  /** `\d*\.?\d{2}` accepts two or more digits without a point, so whole amounts are currency. */
  lemma WholeCurrency(guess: string -> Option<string>)
    ensures TextCategory("$12", guess) == Currency
    ensures TextCategory("$1234", guess) == Currency
  {
    WholeAmountIsCurrency("12", guess);
    WholeAmountIsCurrency("1234", guess);
    assert "$12" == "$" + "12" && "$1234" == "$" + "1234";
  }

  /** A dollar sign followed by two or more digits is currency. */
  lemma WholeAmountIsCurrency(digits: string, guess: string -> Option<string>)
    requires |digits| >= 2 && AllDigits(digits)
    ensures TextCategory("$" + digits, guess) == Currency
  {
    var s := "$" + digits;
    DollarIsNotNumeric(s);
    assert StripSign(s) == s && s[1..] == digits;
    SplitOnWithout(digits, '.');
    assert CentsAmount(digits);
    assert PlainCurrency(s);
  }

  /** Scientific notation is only ever reported for text that starts with a backspace. */
  lemma ScientificNeedsBackspace(s: string, guess: string -> Option<string>)
    ensures TextCategory(s, guess) == Scientific ==> |s| > 0 && s[0] == Backspace
  {
  }

  /** In particular ordinary exponent notation is never reported as scientific. */
  lemma ExponentNotationIsNotScientific(guess: string -> Option<string>)
    ensures TextCategory("1e5", guess) != Scientific
    ensures guess("1e5") == None ==> TextCategory("1e5", guess) == Other
  {
    var s := "1e5";
    assert s[0] == '1' && s[1] == 'e' && s[2] == '5';
    ExponentIsNoNumber();
    assert !IsPercentText(s);
    assert !IsCurrencyText(s);
    assert !ScientificPrefix(s);
    assert !IsEmailText(s);
  }

  lemma ExponentIsNoNumber()
    ensures !IsIntegerText("1e5") && !IsFloatText("1e5")
  {
    var s := "1e5";
    assert s[0] == '1' && s[1] == 'e' && s[2] == '5';
    assert StripSign(s) == s && !AllDigits(s);
    SplitOnWithout(s, ',');
    SplitOnWithout(s, '.');
    assert SplitOn(s, ',')[0] == s && SplitOn(s, '.')[0] == s;
    assert !Grouped3(s);
  }

  /** Any non-empty run of digits, signed or not, is an integer. */
  lemma DigitsAreIntegers(s: string, guess: string -> Option<string>)
    requires |s| > 0 && AllDigits(s)
    ensures TextCategory(s, guess) == Integer
    ensures TextCategory("-" + s, guess) == Integer
  {
    assert StripSign("-" + s) == s;
  }
}

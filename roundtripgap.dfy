/**
  Where the round trip stops: the parser accepts two fractional components
  when a whole-number component lies between them, even a zero one, but
  `ToString` leaves that zero out, and the text it writes then has the two
  fractions next to each other, which the parser rejects.
*/
module RoundTripGap {
  import opened Wrappers
  import opened Decimals
  import opened DurationGrammar
  import opened Durations
  import opened DurationParsing
  import opened DurationRoundTrip

  /** The groups of `P<y>Y<m>M<d>D`. */
  function YearsMonthsDaysGroups(y: string, m: string, dd: string): Groups {
    Groups(false, [Some(y), Some(m), None, Some(dd)], false, [None, None, None])
  }

  lemma YearsMonthsDaysRender(y: string, m: string, dd: string)
    requires IsToken(y) && IsToken(m) && IsToken(dd)
    ensures WellFormed(YearsMonthsDaysGroups(y, m, dd))
    ensures Render(YearsMonthsDaysGroups(y, m, dd)) == "P" + (y + "Y") + (m + "M") + (dd + "D")
  {
    var g := YearsMonthsDaysGroups(y, m, dd);
    assert WellFormed(g);
    RenderFour(g.date, DateDesignators);
    RenderParts(g);
    var a, b, c := y + "Y", m + "M", dd + "D";
    assert RenderGroups(g.date, DateDesignators) == a + b + "" + c;
    assert a + b + "" == a + b;
    ConcatThree("P", a, b, c);
  }

  /** The pattern reads `P<y>Y<m>M<d>D` back into its three groups. */
  lemma YearsMonthsDaysMatch(y: string, m: string, dd: string)
    requires IsToken(y) && IsToken(m) && IsToken(dd)
    ensures Match("P" + (y + "Y") + (m + "M") + (dd + "D")) == Some(YearsMonthsDaysGroups(y, m, dd))
    ensures Tokens(YearsMonthsDaysGroups(y, m, dd)) == [y, m, "", dd, "", "", ""]
  {
    YearsMonthsDaysRender(y, m, dd);
    MatchRender(YearsMonthsDaysGroups(y, m, dd));
  }

  /** The non-empty groups of that text are the three numbers. */
  lemma ThreeNonEmpty(y: string, m: string, dd: string)
    requires y != "" && m != "" && dd != ""
    ensures NonEmpty([y, m, "", dd, "", "", ""]) == [y, m, dd]
  {
    var ts := [y, m, "", dd, "", "", ""];
    assert ts[..0] == [];
    NonEmptyAppend(ts, 0);
    NonEmptyAppend(ts, 1);
    NonEmptyAppend(ts, 2);
    NonEmptyAppend(ts, 3);
    NonEmptyAppend(ts, 4);
    NonEmptyAppend(ts, 5);
    NonEmptyAppend(ts, 6);
    assert ts[..7] == ts;
  }

  /** The default formatting of a non-negative decimal is a non-empty token that parses back, without `,` or `.` when it is whole. */
  lemma FormattedNumber(f: Dec, sep: char)
    requires IsSeparator(sep) && f.mantissa >= 0
    ensures var t := FormatDec(f, sep);
      && IsToken(t) && t != "" && DecimalTryParse(t, sep) == Some(f)
      && (f.scale == 0 ==> !HasSeparator(t))
  {
    var t := FormatDec(f, sep);
    FormatDecRoundTrip(f, sep);
    FormatDecSeparator(f, sep);
    DecimalTryParseNonNegative(t, sep);
    assert IsToken(t) by {
      forall i | 0 <= i < |t| ensures IsNumberChar(t[i]) { assert IsDigit(t[i]) || t[i] == sep; }
    }
    if f.scale == 0 {
      assert AllDigits(t);
      assert ',' !in t && '.' !in t;
    }
  }

  /**
    Three numbers in the years, months and days groups are accepted when
    the middle one has no separator, whatever the outer two carry: the
    whole number in between clears the reader's separator flags.
  */
  lemma WholeBetweenTokens(y: string, m: string, dd: string, sep: char, fy: Dec, fm: Dec, fd: Dec)
    requires IsToken(y) && IsToken(m) && IsToken(dd) && y != "" && m != "" && dd != ""
    requires DecimalTryParse(y, sep) == Some(fy) && DecimalTryParse(m, sep) == Some(fm) && DecimalTryParse(dd, sep) == Some(fd)
    requires !HasSeparator(m)
    ensures ParseDuration("P" + (y + "Y") + (m + "M") + (dd + "D"), sep)
      == TryParseResult(true, Some(Duration(false, fy, fm, Zero, fd, Zero, Zero, Zero)), None)
  {
    var s := "P" + (y + "Y") + (m + "M") + (dd + "D");
    var g := YearsMonthsDaysGroups(y, m, dd);
    YearsMonthsDaysMatch(y, m, dd);
    ThreeNonEmpty(y, m, dd);
    ThreeAccepted(y, m, dd, sep);
    ParseAcceptance(s, g, sep);
    AllOrNothing(s, sep);
    ParsedFields(s, g, sep);
    var r := ParseDuration(s, sep).result.value;
    var expected := Duration(false, fy, fm, Zero, fd, Zero, Zero, Zero);
    assert DecimalTryParse("", sep).None?;
    forall k | 0 <= k < 7 ensures Field(r, k) == Field(expected, k) {
      assert Field(r, k) == ExpectedField(false, Tokens(g)[k], sep);
    }
    DurationExtensionality(r, expected);
  }

  lemma ThreeAccepted(y: string, m: string, dd: string, sep: char)
    requires DecimalTryParse(y, sep).Some? && DecimalTryParse(m, sep).Some? && DecimalTryParse(dd, sep).Some?
    requires !HasSeparator(m)
    ensures Accepted([y, m, dd], sep)
  {
    AcceptedIff([y, m, dd], sep);
  }

  /** The same for the formatted numbers: a whole months value between two others is accepted. */
  lemma WholeBetweenAccepted(fy: Dec, fm: Dec, fd: Dec, sep: char)
    requires IsSeparator(sep) && fy.mantissa >= 0 && fm.mantissa >= 0 && fd.mantissa >= 0 && fm.scale == 0
    ensures var s := "P" + (FormatDec(fy, sep) + "Y") + (FormatDec(fm, sep) + "M") + (FormatDec(fd, sep) + "D");
      ParseDuration(s, sep) == TryParseResult(true, Some(Duration(false, fy, fm, Zero, fd, Zero, Zero, Zero)), None)
  {
    FormattedNumber(fy, sep);
    FormattedNumber(fm, sep);
    FormattedNumber(fd, sep);
    WholeBetweenTokens(FormatDec(fy, sep), FormatDec(fm, sep), FormatDec(fd, sep), sep, fy, fm, fd);
  }

  /** A value with fractions in two components and only zeros between them cannot be read back from its own text. */
  lemma FormattedFractionsRejected(d: Duration, sep: char, a: nat, b: nat)
    requires IsSeparator(sep) && a < b < 7
    requires !IsZero(Field(d, a)) && Field(d, a).scale > 0
    requires !IsZero(Field(d, b)) && Field(d, b).scale > 0
    requires forall k :: a < k < b ==> IsZero(Field(d, k))
    ensures !ParseDuration(Format(d, sep), sep).success
  {
    FormatMatches(d, sep);
    TokensOfFormat(d, sep);
    FieldTokenParses(Field(d, a), sep);
    FieldTokenParses(Field(d, b), sep);
    FractionsRejected(Format(d, sep), GroupsOf(d, sep), sep, a, b);
  }

  lemma GapTexts()
    ensures FormatDec(Dec(15, 1), '.') == "1.5" && FormatDec(Dec(25, 1), '.') == "2.5" && FormatDec(Zero, '.') == "0"
    ensures "P" + ("1.5" + "Y") + ("0" + "M") + ("2.5" + "D") == "P1.5Y0M2.5D"
  {
    OneAndAHalf();
    TwoAndAHalf();
    assert NatDigits(0) == "0";
    GapInputText();
  }

  lemma OneAndAHalf()
    ensures FormatDec(Dec(15, 1), '.') == "1.5"
  {
    assert NatDigits(15) == "15";
    assert "15"[..1] + ['.'] + "15"[1..] == "1.5";
  }

  lemma TwoAndAHalf()
    ensures FormatDec(Dec(25, 1), '.') == "2.5"
  {
    assert NatDigits(25) == "25";
    assert "25"[..1] + ['.'] + "25"[1..] == "2.5";
  }

  lemma GapInputText()
    ensures "P" + ("1.5" + "Y") + ("0" + "M") + ("2.5" + "D") == "P1.5Y0M2.5D"
  {
  }

  /** The value read from `P1.5Y0M2.5D` formats as `P1.5Y2.5D`. */
  lemma GapFormat(d: Duration)
    requires d == Duration(false, Dec(15, 1), Zero, Zero, Dec(25, 1), Zero, Zero, Zero)
    ensures Format(d, '.') == "P1.5Y2.5D"
  {
    GapTexts();
    assert DateText(d, '.') == "1.5Y" + "" + "" + "2.5D";
    assert !d.HasTime();
  }

  /**
    `P1.5Y0M2.5D` is accepted, with years 1.5, months 0 and days 2.5; that
    value formats as `P1.5Y2.5D`, which the parser rejects with the
    last-component message. So not every value the parser produces survives
    format-then-parse.
  */
  lemma ParsedValueDoesNotRoundTrip()
    ensures var r := ParseDuration("P1.5Y0M2.5D", '.');
      && r == TryParseResult(true, Some(Duration(false, Dec(15, 1), Zero, Zero, Dec(25, 1), Zero, Zero, Zero)), None)
      && Format(r.result.value, '.') == "P1.5Y2.5D"
      && !ParseDuration(Format(r.result.value, '.'), '.').success
  {
    var d := Duration(false, Dec(15, 1), Zero, Zero, Dec(25, 1), Zero, Zero, Zero);
    GapTexts();
    WholeBetweenAccepted(Dec(15, 1), Zero, Dec(25, 1), '.');
    GapFormat(d);
    FormattedFractionsRejected(d, '.', 0, 3);
  }

  /** The Arabic decimal separator U+066B, the `NumberDecimalSeparator` of some cultures. */
  const ArabicSeparator: char := '\U{066B}'

  lemma ArabicOneAndAHalf()
    ensures FormatDec(Dec(15, 1), ArabicSeparator) == "1\U{066B}5"
  {
    assert NatDigits(15) == "15";
    assert "15"[..1] + [ArabicSeparator] + "15"[1..] == "1\U{066B}5";
  }

  /** The regular expression's `[0-9,.]*` stops at the Arabic separator, so `P1٫5Y` does not match. */
  lemma ArabicTextUnmatched()
    ensures Match("P1\U{066B}5Y") == None
  {
    var body := "1\U{066B}5Y";
    assert body[1..] == "\U{066B}5Y";
    assert SplitToken(body[1..]) == ("", body[1..]);
    assert IsNumberChar(body[0]) && [body[0]] + "" == "1";
    assert SplitToken(body) == ("1", "\U{066B}5Y");
    assert ScanGroups(body, DateDesignators).1 == body;
    assert "P1\U{066B}5Y"[1..] == body;
  }

  /**
    Under a culture whose decimal separator is neither `.` nor `,`, the text
    `ToString` writes for a fractional component does not match the regular
    expression, and `TryParse` with that culture reads nothing back.
  */
  lemma OtherSeparatorDoesNotRoundTrip()
    ensures var d := Duration(false, Dec(15, 1), Zero, Zero, Zero, Zero, Zero, Zero);
      && Format(d, ArabicSeparator) == "P1\U{066B}5Y"
      && ParseDuration(Format(d, ArabicSeparator), ArabicSeparator) == TryParseResult(false, None, None)
  {
    var d := Duration(false, Dec(15, 1), Zero, Zero, Zero, Zero, Zero, Zero);
    ArabicOneAndAHalf();
    assert DateText(d, ArabicSeparator) == "1\U{066B}5Y" + "" + "" + "";
    assert !d.HasTime();
    assert Format(d, ArabicSeparator) == "P1\U{066B}5Y";
    ArabicTextUnmatched();
    MismatchHasNoMessage("P1\U{066B}5Y", ArabicSeparator);
  }
}

/**
  Test inputs of the duration parser that it accepts: each parses to the
  expected value and formats back to exactly the input.
*/
module DurationExamples {
  import opened Wrappers
  import opened Decimals
  import opened Durations
  import opened DurationParsing
  import opened DurationRoundTrip

  /** `-P2W`: negative, weeks -2. */
  lemma NegativeWeeks()
    ensures var d := Duration(true, Zero, Zero, Dec(-2, 0), Zero, Zero, Zero, Zero);
      ParseDuration("-P2W", '.') == TryParseResult(true, Some(d), None) && Format(d, '.') == "-P2W"
  {
    var d := Duration(true, Zero, Zero, Dec(-2, 0), Zero, Zero, Zero, Zero);
    assert DateText(d, '.') == "2W";
    OneFractionCanonical(d, 0);
    assert Format(d, '.') == "-P2W";
    ParseFormatRoundTrip(d, '.');
  }

  /** `-P2.2W`: weeks -2.2. */
  lemma NegativeFractionalWeeks()
    ensures var d := Duration(true, Zero, Zero, Dec(-22, 1), Zero, Zero, Zero, Zero);
      ParseDuration("-P2.2W", '.') == TryParseResult(true, Some(d), None) && Format(d, '.') == "-P2.2W"
  {
    var d := Duration(true, Zero, Zero, Dec(-22, 1), Zero, Zero, Zero, Zero);
    TenthsDecimal();
    assert DateText(d, '.') == "2.2W";
    OneFractionCanonical(d, 2);
    assert Format(d, '.') == "-P2.2W";
    ParseFormatRoundTrip(d, '.');
  }

  /** `P0.75Y`: years 0.75, kept at two decimal places. */
  lemma FractionalYears()
    ensures var d := Duration(false, Dec(75, 2), Zero, Zero, Zero, Zero, Zero, Zero);
      ParseDuration("P0.75Y", '.') == TryParseResult(true, Some(d), None) && Format(d, '.') == "P0.75Y"
  {
    var d := Duration(false, Dec(75, 2), Zero, Zero, Zero, Zero, Zero, Zero);
    HundredthsDecimal();
    assert DateText(d, '.') == "0.75Y";
    OneFractionCanonical(d, 0);
    assert Format(d, '.') == "P0.75Y";
    ParseFormatRoundTrip(d, '.');
  }

  lemma TenthsDecimal()
    ensures FormatDec(Dec(22, 1), '.') == "2.2"
  {
    assert NatDigits(22) == "22";
    assert "22"[..1] + ['.'] + "22"[1..] == "2.2";
  }

  lemma HundredthsDecimal()
    ensures FormatDec(Dec(75, 2), '.') == "0.75"
  {
    assert NatDigits(75) == "75";
    assert Padded("75", 3) == "075";
    assert "075"[..1] + ['.'] + "075"[1..] == "0.75";
  }

  /** `P1DT12H`: a date and a time component. */
  lemma DaysAndHours()
    ensures var d := Duration(false, Zero, Zero, Zero, Dec(1, 0), Dec(12, 0), Zero, Zero);
      ParseDuration("P1DT12H", '.') == TryParseResult(true, Some(d), None) && Format(d, '.') == "P1DT12H"
  {
    var d := Duration(false, Zero, Zero, Zero, Dec(1, 0), Dec(12, 0), Zero, Zero);
    assert NatDigits(12) == "12";
    assert DateText(d, '.') == "1D";
    assert TimeFields(d, '.') == "12H";
    OneFractionCanonical(d, 0);
    assert Format(d, '.') == "P1DT12H";
    ParseFormatRoundTrip(d, '.');
  }

  /** `PT12,345S` with `,` as the decimal separator: seconds 12.345. */
  lemma CommaSeconds()
    ensures var d := Duration(false, Zero, Zero, Zero, Zero, Zero, Zero, Dec(12345, 3));
      ParseDuration("PT12,345S", ',') == TryParseResult(true, Some(d), None) && Format(d, ',') == "PT12,345S"
  {
    var d := Duration(false, Zero, Zero, Zero, Zero, Zero, Zero, Dec(12345, 3));
    CommaSecondsText();
    OneFractionCanonical(d, 6);
    ParseFormatRoundTrip(d, ',');
  }

  lemma CommaSecondsText()
    ensures Format(Duration(false, Zero, Zero, Zero, Zero, Zero, Zero, Dec(12345, 3)), ',') == "PT12,345S"
  {
    CommaSecondsDecimal();
    SecondsOnlyText(Duration(false, Zero, Zero, Zero, Zero, Zero, Zero, Dec(12345, 3)), ',', "12,345");
  }

  /** A positive duration with only seconds formats as `PT`, the seconds and `S`. */
  lemma SecondsOnlyText(d: Duration, sep: char, text: string)
    requires !d.isNegative && d.seconds.mantissa > 0
    requires d.years == d.months == d.weeks == d.days == d.hours == d.minutes == Zero
    requires FormatDec(d.seconds, sep) == text
    ensures Format(d, sep) == "PT" + text + "S"
  {
    assert DateText(d, sep) == "";
    assert TimeFields(d, sep) == text + "S";
  }

  lemma CommaSecondsDecimal()
    ensures FormatDec(Dec(12345, 3), ',') == "12,345"
  {
    Digits12345();
    assert Padded("12345", 4) == "12345";
    assert "12345"[..2] + [','] + "12345"[2..] == "12,345";
  }

  lemma Digits12345()
    ensures NatDigits(12345) == "12345"
  {
    assert NatDigits(12) == "12";
    assert NatDigits(123) == NatDigits(12) + "3";
    assert NatDigits(1234) == NatDigits(123) + "4";
    assert NatDigits(12345) == NatDigits(1234) + "5";
  }

  /** `P`: every component 0, not negative. */
  lemma BareDesignator()
    ensures ParseDuration("P", '.') == TryParseResult(true, Some(EmptyDuration(false)), None)
    ensures Format(EmptyDuration(false), '.') == "P"
  {
    OneFractionCanonical(EmptyDuration(false), 0);
    ParseFormatRoundTrip(EmptyDuration(false), '.');
  }
}

/**
  Test inputs of the duration parser that it rejects: each matches the
  pattern, and the parse fails.
*/
module DurationRejections {
  import opened Wrappers
  import opened DurationGrammar
  import opened DurationParsing

  /** The groups of `P<y>YT<h>H`, or of `-P<y>YT<h>H` when negative. */
  function YearsHoursGroups(negative: bool, y: string, h: string): Groups {
    Groups(negative, [Some(y), None, None, None], true, [Some(h), None, None])
  }

  lemma YearsHoursRender(negative: bool, y: string, h: string)
    requires IsToken(y) && IsToken(h)
    ensures WellFormed(YearsHoursGroups(negative, y, h))
    ensures Render(YearsHoursGroups(negative, y, h)) == SignText(negative) + "P" + (y + "Y") + ("T" + (h + "H"))
  {
    var g := YearsHoursGroups(negative, y, h);
    assert WellFormed(g);
    RenderFour(g.date, DateDesignators);
    RenderThree(g.time, TimeDesignators);
    assert RenderGroups(g.date, DateDesignators) == y + "Y";
    assert RenderGroups(g.time, TimeDesignators) == h + "H";
  }

  /** The pattern reads `P<y>YT<h>H` back into its years and hours groups. */
  lemma YearsHoursMatch(negative: bool, y: string, h: string)
    requires IsToken(y) && IsToken(h)
    ensures Match(SignText(negative) + "P" + (y + "Y") + ("T" + (h + "H"))) == Some(YearsHoursGroups(negative, y, h))
    ensures Tokens(YearsHoursGroups(negative, y, h))[0] == y && Tokens(YearsHoursGroups(negative, y, h))[4] == h
    ensures forall k :: 0 < k < 4 ==> Tokens(YearsHoursGroups(negative, y, h))[k] == ""
  {
    YearsHoursRender(negative, y, h);
    MatchRender(YearsHoursGroups(negative, y, h));
  }

  lemma FractionsText()
    ensures SignText(false) + "P" + ("1.1" + "Y") + ("T" + ("2.5" + "H")) == "P1.1YT2.5H"
    ensures SignText(true) + "P" + ("1.1" + "Y") + ("T" + ("2.5" + "H")) == "-P1.1YT2.5H"
  {}

  /** `P1.1YT2.5H`: a fraction in the years and again in the hours. */
  lemma FractionBeforeLast()
    ensures !ParseDuration("P1.1YT2.5H", '.').success
  {
    assert IsToken("1.1") && IsToken("2.5") && HasSeparator("1.1") && HasSeparator("2.5");
    YearsHoursMatch(false, "1.1", "2.5");
    FractionsText();
    FractionsRejected("P1.1YT2.5H", YearsHoursGroups(false, "1.1", "2.5"), '.', 0, 4);
  }

  /** `-P1.1YT2.5H`: the same with a sign. */
  lemma NegativeFractionBeforeLast()
    ensures !ParseDuration("-P1.1YT2.5H", '.').success
  {
    assert IsToken("1.1") && IsToken("2.5") && HasSeparator("1.1") && HasSeparator("2.5");
    YearsHoursMatch(true, "1.1", "2.5");
    FractionsText();
    FractionsRejected("-P1.1YT2.5H", YearsHoursGroups(true, "1.1", "2.5"), '.', 0, 4);
  }

  /** The groups of `P<t>D`. */
  function DaysGroups(t: string): Groups {
    Groups(false, [None, None, None, Some(t)], false, [None, None, None])
  }

  lemma DaysRender(t: string)
    requires IsToken(t)
    ensures WellFormed(DaysGroups(t)) && Render(DaysGroups(t)) == "P" + t + "D"
  {
    var g := DaysGroups(t);
    assert WellFormed(g);
    RenderFour(g.date, DateDesignators);
    RenderThree(g.time, TimeDesignators);
    RenderParts(g);
  }

  /** The pattern reads `P<t>D` back into the days group alone. */
  lemma DaysMatch(t: string)
    requires IsToken(t)
    ensures Match("P" + t + "D") == Some(DaysGroups(t)) && Tokens(DaysGroups(t))[3] == t
  {
    DaysRender(t);
    MatchRender(DaysGroups(t));
  }

  lemma MixedText()
    ensures "P" + "100,000.123" + "D" == "P100,000.123D"
    ensures "P" + "100.000,123" + "D" == "P100.000,123D"
  {}

  /** `P100,000.123D`: both separators in one number. */
  lemma CommaThenPoint()
    ensures !ParseDuration("P100,000.123D", '.').success
  {
    var t := "100,000.123";
    assert IsToken(t) && t[3] == ',' && t[7] == '.';
    DaysMatch(t);
    MixedText();
    MixedSeparatorsRejected("P100,000.123D", DaysGroups(t), '.', 3);
  }

  /** `P100.000,123D`: the separators the other way round. */
  lemma PointThenComma()
    ensures !ParseDuration("P100.000,123D", '.').success
  {
    var t := "100.000,123";
    assert IsToken(t) && t[3] == '.' && t[7] == ',';
    DaysMatch(t);
    MixedText();
    MixedSeparatorsRejected("P100.000,123D", DaysGroups(t), '.', 3);
  }
}

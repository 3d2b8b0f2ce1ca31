/**
  The value an IsoDuration holds: a sign flag and seven decimal fields, with
  the derived predicates of the class and the canonical formatter
  `ToString(provider)`, the provider reduced to its decimal separator.
*/
module Durations {
  import opened Wrappers
  import opened Decimals
  import opened DurationGrammar

  datatype Duration = Duration(
    isNegative: bool,
    years: Dec, months: Dec, weeks: Dec, days: Dec,
    hours: Dec, minutes: Dec, seconds: Dec)
  {
    /** Are all components zero? */
    predicate IsEmpty() {
      IsZero(years) && IsZero(months) && IsZero(weeks) && IsZero(days)
      && IsZero(hours) && IsZero(minutes) && IsZero(seconds)
    }

    /** Does the duration depend on the calendar it is applied to? */
    predicate IsAmbiguous() {
      !IsZero(years) || !IsZero(months) || !IsZero(weeks) || !IsZero(days)
    }

    predicate IsExact() { !IsAmbiguous() }

    /** Has it any of years, months, weeks or days? */
    predicate HasDate() {
      !IsZero(years) || !IsZero(months) || !IsZero(weeks) || !IsZero(days)
    }

    /** Has it any of hours, minutes or seconds? */
    predicate HasTime() {
      !IsZero(hours) || !IsZero(minutes) || !IsZero(seconds)
    }
  }

  /** The value of `new IsoDuration()`: not negative, every field 0. */
  function EmptyDuration(negative: bool): Duration {
    Duration(negative, Zero, Zero, Zero, Zero, Zero, Zero, Zero)
  }

  /** Field k in the order Y, M, W, D, H, M, S. */
  function Field(d: Duration, k: nat): Dec
    requires k < 7
  {
    match k
    case 0 => d.years
    case 1 => d.months
    case 2 => d.weeks
    case 3 => d.days
    case 4 => d.hours
    case 5 => d.minutes
    case _ => d.seconds
  }

  function Fields(d: Duration): (fs: seq<Dec>)
    ensures |fs| == 7 && forall k :: 0 <= k < 7 ==> fs[k] == Field(d, k)
  {
    [d.years, d.months, d.weeks, d.days, d.hours, d.minutes, d.seconds]
  }

  /** The duration with field k replaced by v (the `setProp` callback of field k). */
  function WithField(d: Duration, k: nat, v: Dec): (r: Duration)
    requires k < 7
    ensures r.isNegative == d.isNegative
    ensures Field(r, k) == v
    ensures forall j :: 0 <= j < 7 && j != k ==> Field(r, j) == Field(d, j)
  {
    match k
    case 0 => d.(years := v)
    case 1 => d.(months := v)
    case 2 => d.(weeks := v)
    case 3 => d.(days := v)
    case 4 => d.(hours := v)
    case 5 => d.(minutes := v)
    case _ => d.(seconds := v)
  }

  /** Two durations with the same sign and fields are equal. */
  lemma DurationExtensionality(a: Duration, b: Duration)
    requires a.isNegative == b.isNegative
    requires forall k :: 0 <= k < 7 ==> Field(a, k) == Field(b, k)
    ensures a == b
  {
    assert Field(a, 0) == Field(b, 0) && Field(a, 1) == Field(b, 1);
    assert Field(a, 2) == Field(b, 2) && Field(a, 3) == Field(b, 3);
    assert Field(a, 4) == Field(b, 4) && Field(a, 5) == Field(b, 5);
    assert Field(a, 6) == Field(b, 6);
  }

  // ---- Formatting -----------------------------------------------------------

  /** `AppendFormat(provider, "{0}L", Math.Abs(f))` when f is not zero, nothing otherwise. */
  function Component(f: Dec, letter: char, sep: char): string {
    if IsZero(f) then "" else FormatDec(Abs(f), sep) + [letter]
  }

  /** `ToString(provider)`: sign, `P`, the non-zero date fields, and `T` with the non-zero time fields if there are any. */
  function Format(d: Duration, sep: char): string {
    (if d.isNegative then "-" else "") + "P" + DateText(d, sep)
      + (if d.HasTime() then "T" + TimeFields(d, sep) else "")
  }

  function DateText(d: Duration, sep: char): string {
    Component(d.years, 'Y', sep) + Component(d.months, 'M', sep)
      + Component(d.weeks, 'W', sep) + Component(d.days, 'D', sep)
  }

  function TimeFields(d: Duration, sep: char): string {
    Component(d.hours, 'H', sep) + Component(d.minutes, 'M', sep) + Component(d.seconds, 'S', sep)
  }

  /** The group a non-zero field produces in formatted text. */
  function FieldGroup(f: Dec, sep: char): Option<string> {
    if IsZero(f) then None else Some(FormatDec(Abs(f), sep))
  }

  /** The groups `IsoRegex` captures from the formatted text. */
  function GroupsOf(d: Duration, sep: char): Groups {
    Groups(d.isNegative,
      [FieldGroup(d.years, sep), FieldGroup(d.months, sep), FieldGroup(d.weeks, sep), FieldGroup(d.days, sep)],
      d.HasTime(),
      [FieldGroup(d.hours, sep), FieldGroup(d.minutes, sep), FieldGroup(d.seconds, sep)])
  }

  predicate IsSeparator(sep: char) { sep == '.' || sep == ',' }

  lemma FieldGroupToken(f: Dec, sep: char)
    requires IsSeparator(sep)
    ensures FieldGroup(f, sep).Some? ==> IsToken(FieldGroup(f, sep).value)
  {
    if !IsZero(f) { FormatDecSeparator(Abs(f), sep); }
  }

  lemma ComponentText(f: Dec, letter: char, sep: char)
    ensures Component(f, letter, sep) == GroupText(FieldGroup(f, sep), letter)
  {}

  lemma GroupsOfWellFormed(d: Duration, sep: char)
    requires IsSeparator(sep)
    ensures WellFormed(GroupsOf(d, sep))
  {
    FieldGroupToken(d.years, sep); FieldGroupToken(d.months, sep);
    FieldGroupToken(d.weeks, sep); FieldGroupToken(d.days, sep);
    FieldGroupToken(d.hours, sep); FieldGroupToken(d.minutes, sep);
    FieldGroupToken(d.seconds, sep);
  }

  /** The formatter's output is in the grammar, with one group per non-zero field. */
  lemma FormatRendersGroups(d: Duration, sep: char)
    requires IsSeparator(sep)
    ensures WellFormed(GroupsOf(d, sep))
    ensures Render(GroupsOf(d, sep)) == Format(d, sep)
  {
    var g := GroupsOf(d, sep);
    GroupsOfWellFormed(d, sep);
    RenderFour(g.date, DateDesignators);
    RenderThree(g.time, TimeDesignators);
    assert RenderGroups(g.date, DateDesignators) == DateText(d, sep);
    assert RenderGroups(g.time, TimeDesignators) == TimeFields(d, sep);
  }

  /** Formatted text matches `IsoRegex`, capturing the formatted non-zero fields. */
  lemma FormatMatches(d: Duration, sep: char)
    requires IsSeparator(sep)
    ensures Match(Format(d, sep)) == Some(GroupsOf(d, sep))
  {
    FormatRendersGroups(d, sep);
    MatchRender(GroupsOf(d, sep));
  }

  /** `-` leads exactly for negative values, followed by `P`. */
  lemma FormatSign(d: Duration, sep: char)
    ensures var s := Format(d, sep);
      |s| > (if d.isNegative then 1 else 0)
      && (d.isNegative <==> s[0] == '-')
      && s[if d.isNegative then 1 else 0] == 'P'
  {}

  /** `T` appears exactly when a time field is non-zero. */
  lemma FormatTimePart(d: Duration, sep: char)
    requires IsSeparator(sep)
    ensures 'T' in Format(d, sep) <==> d.HasTime()
  {
    var g := GroupsOf(d, sep);
    FormatRendersGroups(d, sep);
    NoTInGroups(g.date, DateDesignators);
    var sign := if d.isNegative then "-" else "";
    var date := RenderGroups(g.date, DateDesignators);
    if d.HasTime() {
      var s := sign + "P" + date + "T" + TimeFields(d, sep);
      assert s[|sign| + 1 + |date|] == 'T';
    } else {
      assert Format(d, sep) == sign + "P" + date;
      assert 'T' !in sign + "P";
    }
  }

  /** The date groups render without a `T`. */
  lemma {:induction false} NoTInGroups(gs: seq<Option<string>>, letters: string)
    requires |gs| == |letters| && TokensOk(gs) && 'T' !in letters
    ensures 'T' !in RenderGroups(gs, letters)
  {
    if gs != [] {
      NoTInGroups(gs[1..], letters[1..]);
      var head := GroupText(gs[0], letters[0]);
      assert 'T' !in head by {
        if gs[0].Some? {
          assert head == gs[0].value + [letters[0]];
          assert IsToken(gs[0].value);
        }
      }
    }
  }

  lemma ComponentEmpty(f: Dec, letter: char, sep: char)
    ensures Component(f, letter, sep) == "" <==> IsZero(f)
  {}

  /** Regrouping concatenations. */
  lemma ConcatFour(h: string, a: string, b: string, c: string, d: string)
    ensures h + a + b + c + d == h + (a + b + c + d)
  {
  }

  lemma ConcatTwo(h: string, a: string, b: string)
    ensures h + a + b == h + (a + b)
  {
  }

  lemma ConcatThree(h: string, a: string, b: string, c: string)
    ensures h + a + b + c == h + (a + b + c)
  {
  }

  /** A duration is empty exactly when it formats as a bare `P` (after the sign, if flagged negative). */
  lemma FormatEmpty(d: Duration, sep: char)
    ensures d.IsEmpty() <==> Format(d, sep) == if d.isNegative then "-P" else "P"
  {
    var head := if d.isNegative then "-P" else "P";
    var rest := DateText(d, sep) + (if d.HasTime() then "T" + TimeFields(d, sep) else "");
    ConcatTwo((if d.isNegative then "-" else "") + "P", DateText(d, sep), if d.HasTime() then "T" + TimeFields(d, sep) else "");
    assert (if d.isNegative then "-" else "") + "P" == head;
    DateTextEmpty(d, sep);
    assert rest == "" <==> d.IsEmpty();
    assert |head + rest| == |head| + |rest|;
    if rest == "" {
      assert head + rest == head;
    }
  }

  lemma DateTextEmpty(d: Duration, sep: char)
    ensures DateText(d, sep) == "" <==> !d.HasDate()
  {
    ComponentEmpty(d.years, 'Y', sep); ComponentEmpty(d.months, 'M', sep);
    ComponentEmpty(d.weeks, 'W', sep); ComponentEmpty(d.days, 'D', sep);
  }

  // ---- The predicates -----------------------------------------------------

  /** `IsAmbiguous` is `HasDate`, and `IsExact` its negation. */
  lemma AmbiguousIsHasDate(d: Duration)
    ensures d.IsAmbiguous() == d.HasDate()
    ensures d.IsExact() == !d.HasDate()
  {}

  /** A duration is empty exactly when it has neither a date nor a time part, i.e. when every field is zero. */
  lemma EmptyIsNoParts(d: Duration)
    ensures d.IsEmpty() <==> !d.HasDate() && !d.HasTime()
    ensures d.IsEmpty() <==> forall k :: 0 <= k < 7 ==> IsZero(Field(d, k))
  {
    assert IsZero(Field(d, 0)) == IsZero(d.years);
    if forall k :: 0 <= k < 7 ==> IsZero(Field(d, k)) {
      assert IsZero(Field(d, 1)) && IsZero(Field(d, 2)) && IsZero(Field(d, 3));
      assert IsZero(Field(d, 4)) && IsZero(Field(d, 5)) && IsZero(Field(d, 6));
    }
  }

  /** The value the seven-argument constructor builds: negative exactly when some field is below zero. */
  function FromFields(years: Dec, months: Dec, weeks: Dec, days: Dec, hours: Dec, minutes: Dec, seconds: Dec): (d: Duration)
    ensures d.isNegative <==> exists k :: 0 <= k < 7 && Field(d, k).mantissa < 0
    ensures Fields(d) == [years, months, weeks, days, hours, minutes, seconds]
  {
    var neg := years.mantissa < 0 || months.mantissa < 0 || weeks.mantissa < 0 || days.mantissa < 0
      || hours.mantissa < 0 || minutes.mantissa < 0 || seconds.mantissa < 0;
    var d := Duration(neg, years, months, weeks, days, hours, minutes, seconds);
    assert years.mantissa < 0 ==> Field(d, 0).mantissa < 0;
    assert months.mantissa < 0 ==> Field(d, 1).mantissa < 0;
    assert weeks.mantissa < 0 ==> Field(d, 2).mantissa < 0;
    assert days.mantissa < 0 ==> Field(d, 3).mantissa < 0;
    assert hours.mantissa < 0 ==> Field(d, 4).mantissa < 0;
    assert minutes.mantissa < 0 ==> Field(d, 5).mantissa < 0;
    assert seconds.mantissa < 0 ==> Field(d, 6).mantissa < 0;
    d
  }
}

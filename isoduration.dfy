/**
  The mutable objects of `IsoDuration.cs`: the field reader `ParseField`,
  whose flags change with every component it reads, and `IsoDuration`,
  whose properties `TryParse` assigns one by one and `ToString` reads
  through a string builder. Each method is proved to agree with the
  function of the same behaviour in `DurationParsing` or `Durations`.
*/
module IsoDurationObjects {
  import opened Wrappers
  import opened Decimals
  import opened DurationGrammar
  import opened Durations
  import opened DurationParsing

  /** `IsoDuration.ParseField`: reads one component, remembering the sign and which separators were seen. */
  class ParseField {
    var isNegative: bool
    var hasComma: bool
    var hasDecimal: bool

    /** `new ParseField() { IsNegative = negative }`. */
    constructor (negative: bool)
      ensures State() == FieldState(negative, false, false)
    {
      isNegative := negative;
      hasComma := false;
      hasDecimal := false;
    }

    function State(): FieldState
      reads this
    {
      FieldState(isNegative, hasComma, hasDecimal)
    }

    /**
      `TryParse(input, provider, setProp, out errorMessage)`. The value
      handed to `setProp` is returned in `value`; the format provider is the
      decimal separator `sep`.
    */
    method TryParse(input: string, sep: char) returns (result: Option<bool>, errorMessage: Option<string>, value: Option<Dec>)
      modifies this
      ensures FieldOutcome(result, errorMessage, value, State()) == ReadField(old(State()), input, sep)
      ensures isNegative == old(isNegative)
    {
      result, errorMessage, value := None, None, None;
      if input != "" {
        var inputHasComma := ',' in input;
        var inputHasDecimal := '.' in input;
        if (inputHasComma || inputHasDecimal) && (hasComma || hasDecimal) {
          errorMessage := Some(LastComponentMessage);
          result := Some(false);
          return;
        }
        if inputHasComma && inputHasDecimal {
          errorMessage := Some(BothSeparatorsMessage);
          result := Some(false);
          return;
        }
        hasComma := inputHasComma;
        hasDecimal := inputHasDecimal;
        var parsed := DecimalTryParse(input, sep);
        if parsed.Some? {
          result := Some(true);
          value := Some(if isNegative then Negate(parsed.value) else parsed.value);
        } else {
          errorMessage := Some(FailedComponentPrefix + input);
          result := Some(false);
          return;
        }
      }
    }

    /** `Parse(input, provider, setProp)`: `TryParse`, then a `FormatException` carrying any message. */
    method Parse(input: string, sep: char) returns (result: Option<bool>, value: Option<Dec>, exception: Option<string>)
      modifies this
      ensures var o := ReadField(old(State()), input, sep);
        && exception == o.error
        && (exception.None? ==> result == o.result && value == o.setValue)
        && State() == o.state
    {
      var errorMessage;
      result, errorMessage, value := TryParse(input, sep);
      exception := errorMessage;
    }
  }

  /** `IsoDuration`: a sign flag and seven decimal components. */
  class IsoDuration {
    var isNegative: bool
    var years: Dec
    var months: Dec
    var weeks: Dec
    var days: Dec
    var hours: Dec
    var minutes: Dec
    var seconds: Dec

    /** `new IsoDuration()`: every component 0, not negative. */
    constructor ()
      ensures Value() == EmptyDuration(false)
    {
      isNegative := false;
      years, months, weeks, days := Zero, Zero, Zero, Zero;
      hours, minutes, seconds := Zero, Zero, Zero;
    }

    /** `new IsoDuration(years, ..., seconds)`: negative when any component is below 0. */
    constructor FromComponents(years: Dec, months: Dec, weeks: Dec, days: Dec, hours: Dec, minutes: Dec, seconds: Dec)
      ensures Value() == FromFields(years, months, weeks, days, hours, minutes, seconds)
    {
      this.years, this.months, this.weeks, this.days := years, months, weeks, days;
      this.hours, this.minutes, this.seconds := hours, minutes, seconds;
      isNegative := years.mantissa < 0 || months.mantissa < 0 || weeks.mantissa < 0 || days.mantissa < 0
        || hours.mantissa < 0 || minutes.mantissa < 0 || seconds.mantissa < 0;
    }

    /** The object's properties as a value. */
    function Value(): Duration
      reads this
    {
      Duration(isNegative, years, months, weeks, days, hours, minutes, seconds)
    }

    /** The `setProp` callback for component k: `x => { duration.F = x; }`. */
    method SetField(k: nat, v: Dec)
      requires k < 7
      modifies this
      ensures Value() == WithField(old(Value()), k, v)
    {
      match k
      case 0 => years := v;
      case 1 => months := v;
      case 2 => weeks := v;
      case 3 => days := v;
      case 4 => hours := v;
      case 5 => minutes := v;
      case _ => seconds := v;
    }

    /** `ToString(provider)`: the builder gets the sign, `P`, the non-zero date components and, if any time component is non-zero, `T` and those. */
    method ToString(sep: char) returns (s: string)
      ensures s == Format(Value(), sep)
    {
      var v := Value();
      var builder := "";
      if isNegative { builder := builder + "-"; }
      builder := builder + "P";
      ghost var head := builder;
      assert head == (if v.isNegative then "-" else "") + "P";
      builder := AppendDate(builder, v, sep);
      ghost var date := builder;
      if !IsZero(hours) || !IsZero(minutes) || !IsZero(seconds) {
        builder := builder + "T";
        builder := AppendTime(builder, v, sep);
        ConcatTwo(date, "T", TimeFields(v, sep));
      }
      assert builder == date + (if v.HasTime() then "T" + TimeFields(v, sep) else "");
      s := builder;
    }

    /** The four date components of `ToString`. */
    static method AppendDate(builder: string, d: Duration, sep: char) returns (r: string)
      ensures r == builder + DateText(d, sep)
    {
      r := AppendComponent(builder, d.years, 'Y', sep);
      r := AppendComponent(r, d.months, 'M', sep);
      r := AppendComponent(r, d.weeks, 'W', sep);
      r := AppendComponent(r, d.days, 'D', sep);
      ConcatFour(builder, Component(d.years, 'Y', sep), Component(d.months, 'M', sep), Component(d.weeks, 'W', sep), Component(d.days, 'D', sep));
    }

    /** The three time components of `ToString`. */
    static method AppendTime(builder: string, d: Duration, sep: char) returns (r: string)
      ensures r == builder + TimeFields(d, sep)
    {
      r := AppendComponent(builder, d.hours, 'H', sep);
      r := AppendComponent(r, d.minutes, 'M', sep);
      r := AppendComponent(r, d.seconds, 'S', sep);
      ConcatThree(builder, Component(d.hours, 'H', sep), Component(d.minutes, 'M', sep), Component(d.seconds, 'S', sep));
    }

    /** `if (F != 0) { builder.AppendFormat(provider, "{0}L", Math.Abs(F)); }` for a component F with letter L. */
    static method AppendComponent(builder: string, f: Dec, letter: char, sep: char) returns (r: string)
      ensures r == builder + Component(f, letter, sep)
    {
      r := builder;
      if !IsZero(f) {
        r := r + FormatDec(Abs(f), sep) + [letter];
      }
    }

    /**
      `if (errorMessage == null) { parser.TryParse(token, provider, x => { duration.F = x; }, out errorMessage); }`
      for component k, as one step of `Step`.
    */
    static method ParseStep(parser: ParseField, duration: IsoDuration, token: string, k: nat, sep: char, errorMessage: Option<string>)
      returns (newMessage: Option<string>)
      requires k < 7
      modifies parser, duration
      ensures var p := Step(ParseState(old(parser.State()), old(duration.Value()), errorMessage), token, k, sep);
        && parser.State() == p.field && duration.Value() == p.duration && newMessage == p.error
    {
      newMessage := errorMessage;
      if errorMessage.None? {
        var _, e, v := parser.TryParse(token, sep);
        newMessage := e;
        if v.Some? {
          duration.SetField(k, v.value);
        }
      }
    }

    /**
      `TryParse(input, provider, out result, out errorMessage)`: match the
      pattern, then read the seven groups in order with one `ParseField`,
      stopping at the first error message.
    */
    static method TryParse(input: string, sep: char) returns (success: bool, result: IsoDuration?, errorMessage: Option<string>)
      ensures var r := ParseDuration(input, sep);
        && success == r.success && errorMessage == r.errorMessage
        && (success ==> result != null && fresh(result) && result.Value() == r.result.value)
        && (!success ==> result == null)
    {
      errorMessage := None;
      result := null;
      var m := Match(input);
      success := m.Some?;
      if success {
        var duration;
        duration, errorMessage := ReadGroups(m.value, sep);
        if errorMessage.None? {
          result := duration;
          success := true;
        } else {
          result := null;
          success := false;
        }
      }
    }

    /** The body of `TryParse` after a match: a fresh duration with the sign set, then the seven guarded reader calls. */
    static method ReadGroups(g: Groups, sep: char) returns (duration: IsoDuration, errorMessage: Option<string>)
      ensures fresh(duration)
      ensures var p := RunSteps(InitialState(g.negative), Tokens(g), sep);
        duration.Value() == p.duration && errorMessage == p.error
    {
      errorMessage := None;
      var tokens := Tokens(g);
      duration := new IsoDuration();
      duration.isNegative := g.negative;
      var parser := new ParseField(g.negative);
      ghost var p := InitialState(g.negative);
      errorMessage := ParseStep(parser, duration, tokens[0], 0, sep, errorMessage);
      p := Step(p, tokens[0], 0, sep);
      assert ParseState(parser.State(), duration.Value(), errorMessage) == p;
      errorMessage := ParseStep(parser, duration, tokens[1], 1, sep, errorMessage);
      p := Step(p, tokens[1], 1, sep);
      assert ParseState(parser.State(), duration.Value(), errorMessage) == p;
      errorMessage := ParseStep(parser, duration, tokens[2], 2, sep, errorMessage);
      p := Step(p, tokens[2], 2, sep);
      assert ParseState(parser.State(), duration.Value(), errorMessage) == p;
      errorMessage := ParseStep(parser, duration, tokens[3], 3, sep, errorMessage);
      p := Step(p, tokens[3], 3, sep);
      assert ParseState(parser.State(), duration.Value(), errorMessage) == p;
      errorMessage := ParseStep(parser, duration, tokens[4], 4, sep, errorMessage);
      p := Step(p, tokens[4], 4, sep);
      assert ParseState(parser.State(), duration.Value(), errorMessage) == p;
      errorMessage := ParseStep(parser, duration, tokens[5], 5, sep, errorMessage);
      p := Step(p, tokens[5], 5, sep);
      assert ParseState(parser.State(), duration.Value(), errorMessage) == p;
      errorMessage := ParseStep(parser, duration, tokens[6], 6, sep, errorMessage);
      p := Step(p, tokens[6], 6, sep);
      assert ParseState(parser.State(), duration.Value(), errorMessage) == p;
      SevenSteps(InitialState(g.negative), tokens, sep);
    }

    /** `Parse(input, provider)`: `TryParse`, then a `FormatException` carrying any message; a mismatch returns null. */
    static method Parse(input: string, sep: char) returns (result: IsoDuration?, exception: Option<string>)
      ensures match DurationParsing.Parse(input, sep)
        case Returned(v) => exception.None? && (v.None? <==> result == null) && (v.Some? ==> result != null && result.Value() == v.value)
        case ThrewFormatException(msg) => exception == Some(msg)
    {
      var success, errorMessage;
      success, result, errorMessage := TryParse(input, sep);
      exception := errorMessage;
      AllOrNothing(input, sep);
    }
  }

  /** The fold over seven tokens, written out. */
  lemma SevenSteps(p0: ParseState, tokens: seq<string>, sep: char)
    requires |tokens| == 7
    ensures RunSteps(p0, tokens, sep)
      == Step(Step(Step(Step(Step(Step(Step(p0, tokens[0], 0, sep), tokens[1], 1, sep), tokens[2], 2, sep),
           tokens[3], 3, sep), tokens[4], 4, sep), tokens[5], 5, sep), tokens[6], 6, sep)
  {
    assert tokens[..0] == [];
    StepsExtend(p0, tokens, 0, sep);
    StepsExtend(p0, tokens, 1, sep);
    StepsExtend(p0, tokens, 2, sep);
    StepsExtend(p0, tokens, 3, sep);
    StepsExtend(p0, tokens, 4, sep);
    StepsExtend(p0, tokens, 5, sep);
    StepsExtend(p0, tokens, 6, sep);
    assert tokens[..7] == tokens;
  }

  /** One more step of the fold. */
  lemma StepsExtend(p0: ParseState, tokens: seq<string>, k: nat, sep: char)
    requires k < |tokens| == 7
    ensures RunSteps(p0, tokens[..k + 1], sep) == Step(RunSteps(p0, tokens[..k], sep), tokens[k], k, sep)
  {
    assert tokens[..k + 1][..k] == tokens[..k];
  }
}

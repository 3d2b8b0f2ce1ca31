/**
  `IsoDuration.TryParse` as a function: the match, then the seven
  `ParseField.TryParse` steps in the order Y, M, W, D, H, M, S, threading the
  reader's flags and stopping at the first error message. `ReadField` is
  one reader call; `RunSteps` the first steps of the sequence.
*/
module DurationParsing {
  import opened Wrappers
  import opened Decimals
  import opened DurationGrammar
  import opened Durations

  const LastComponentMessage: string := "Decimal fraction can only be specified in last component"
  const BothSeparatorsMessage: string := "Cannot have both decimal and comma in number. Use either decimal or comma but not both."
  const FailedComponentPrefix: string := "Failed to parse component: "

  /** The properties of a `ParseField` object. */
  datatype FieldState = FieldState(isNegative: bool, hasComma: bool, hasDecimal: bool)

  /**
    What one `ParseField.TryParse` call produces: its `bool?` result, its
    `errorMessage`, the value passed to `setProp` (None when it is not
    called) and the reader's properties afterwards.
  */
  datatype FieldOutcome = FieldOutcome(result: Option<bool>, error: Option<string>, setValue: Option<Dec>, state: FieldState)

  function Signed(negative: bool, v: Dec): Dec {
    if negative then Negate(v) else v
  }

  /** `ParseField.TryParse(input, provider, setProp, out errorMessage)`. */
  function ReadField(st: FieldState, input: string, sep: char): FieldOutcome {
    if input == "" then FieldOutcome(None, None, None, st)
    else
      var hasComma := ',' in input;
      var hasDecimal := '.' in input;
      if (hasComma || hasDecimal) && (st.hasComma || st.hasDecimal) then
        FieldOutcome(Some(false), Some(LastComponentMessage), None, st)
      else if hasComma && hasDecimal then
        FieldOutcome(Some(false), Some(BothSeparatorsMessage), None, st)
      else
        var st' := st.(hasComma := hasComma, hasDecimal := hasDecimal);
        match DecimalTryParse(input, sep)
        case Some(v) => FieldOutcome(Some(true), None, Some(Signed(st.isNegative, v)), st')
        case None => FieldOutcome(Some(false), Some(FailedComponentPrefix + input), None, st')
  }

  /** The state of `IsoDuration.TryParse` between steps: the reader, the fresh duration and `errorMessage`. */
  datatype ParseState = ParseState(field: FieldState, duration: Duration, error: Option<string>)

  function InitialState(negative: bool): ParseState {
    ParseState(FieldState(negative, false, false), EmptyDuration(negative), None)
  }

  /** `if (errorMessage == null) { parser.TryParse(token, provider, x => { duration.F = x; }, out errorMessage); }` for field k. */
  function Step(p: ParseState, token: string, k: nat, sep: char): ParseState
    requires k < 7
  {
    if p.error.Some? then p
    else
      var o := ReadField(p.field, token, sep);
      ParseState(o.state, if o.setValue.Some? then WithField(p.duration, k, o.setValue.value) else p.duration, o.error)
  }

  /** The first |tokens| steps. */
  function RunSteps(p0: ParseState, tokens: seq<string>, sep: char): ParseState
    requires |tokens| <= 7
  {
    if tokens == [] then p0
    else Step(RunSteps(p0, tokens[..|tokens| - 1], sep), tokens[|tokens| - 1], |tokens| - 1, sep)
  }

  /** The outcome of `IsoDuration.TryParse(input, provider, out result, out errorMessage)`. */
  datatype TryParseResult = TryParseResult(success: bool, result: Option<Duration>, errorMessage: Option<string>)

  function ParseDuration(s: string, sep: char): TryParseResult {
    match Match(s)
    case None => TryParseResult(false, None, None)
    case Some(g) => ParseGroups(g, sep)
  }

  /** The seven steps over the captured groups of a successful match. */
  function ParseGroups(g: Groups, sep: char): TryParseResult {
    var p := RunSteps(InitialState(g.negative), Tokens(g), sep);
    if p.error.None? then TryParseResult(true, Some(p.duration), None)
    else TryParseResult(false, None, p.error)
  }

  /** `IsoDuration.Parse(input, provider)`: throws `FormatException` when a message was set, else returns the result. */
  datatype ParseCall = Returned(value: Option<Duration>) | ThrewFormatException(message: string)

  function Parse(s: string, sep: char): ParseCall {
    var r := ParseDuration(s, sep);
    if r.errorMessage.Some? then ThrewFormatException(r.errorMessage.value) else Returned(r.result)
  }

  // ---- A reference description of which inputs are accepted ---------------

  predicate HasSeparator(t: string) { ',' in t || '.' in t }

  /** The non-empty group values, in order. */
  function NonEmpty(tokens: seq<string>): (ne: seq<string>)
    ensures |ne| <= |tokens|
    ensures forall i :: 0 <= i < |ne| ==> ne[i] != ""
  {
    if tokens == [] then []
    else NonEmpty(tokens[..|tokens| - 1]) + (if tokens[|tokens| - 1] == "" then [] else [tokens[|tokens| - 1]])
  }

  /** Whether the non-empty token before position i carried a separator. */
  predicate PreviousHasSeparator(ne: seq<string>, i: nat)
    requires i <= |ne|
  {
    i > 0 && HasSeparator(ne[i - 1])
  }

  /**
    The error a non-empty token raises, given whether the previous non-empty
    token had a separator: the last-component rule first, then the mixed
    separators, then the number itself.
  */
  function TokenError(t: string, previousHasSeparator: bool, sep: char): Option<string> {
    if HasSeparator(t) && previousHasSeparator then Some(LastComponentMessage)
    else if ',' in t && '.' in t then Some(BothSeparatorsMessage)
    else if DecimalTryParse(t, sep).None? then Some(FailedComponentPrefix + t)
    else None
  }

  predicate Accepted(ne: seq<string>, sep: char) {
    forall i :: 0 <= i < |ne| ==> TokenError(ne[i], PreviousHasSeparator(ne, i), sep).None?
  }

  /** The value a group's token gives its field: the signed number, or 0 when absent. */
  function ExpectedField(negative: bool, t: string, sep: char): Dec {
    match DecimalTryParse(t, sep)
    case Some(v) => Signed(negative, v)
    case None => Zero
  }

  // ---- Lemmas about one reader call ---------------------------------------

  /** An empty group: no result, no message, no `setProp` call, and the flags are untouched. */
  lemma ReadFieldAbsent(st: FieldState, sep: char)
    ensures ReadField(st, "", sep) == FieldOutcome(None, None, None, st)
  {}

  /** The message one reader call sets is the reference error of its token. */
  lemma ReadFieldError(st: FieldState, t: string, sep: char)
    requires t != ""
    ensures var o := ReadField(st, t, sep);
      && o.error == TokenError(t, st.hasComma || st.hasDecimal, sep)
      && o.state.isNegative == st.isNegative
      && (o.error.None? ==> (o.state.hasComma || o.state.hasDecimal <==> HasSeparator(t)))
      && (o.error.None? <==> o.setValue.Some?)
      && (o.setValue.Some? ==> o.setValue.value == ExpectedField(st.isNegative, t, sep))
      && (o.result == Some(o.error.None?))
  {}

  /** A number that parses holds only digits and the separator, so never both ',' and '.'. */
  lemma ParsedHasOneSeparator(t: string, sep: char)
    requires DecimalTryParse(t, sep).Some?
    ensures forall j :: 0 <= j < |t| ==> IsDigit(t[j]) || t[j] == sep
    ensures !(',' in t && '.' in t)
  {
    if !AllDigits(t) {
      var i := IndexOfChar(t, sep).value;
      forall j | 0 <= j < |t| ensures IsDigit(t[j]) || t[j] == sep {
        if j < i { assert t[j] == t[..i][j]; }
        else if j > i { assert t[j] == t[i + 1..][j - i - 1]; }
      }
    }
  }

  /** Accepted means: every non-empty token is a number and no two consecutive ones both carry a separator. */
  lemma AcceptedIff(ne: seq<string>, sep: char)
    ensures Accepted(ne, sep) <==>
      (forall i :: 0 <= i < |ne| ==> DecimalTryParse(ne[i], sep).Some?)
      && (forall i :: 0 < i < |ne| ==> !(HasSeparator(ne[i - 1]) && HasSeparator(ne[i])))
  {
    if (forall i :: 0 <= i < |ne| ==> DecimalTryParse(ne[i], sep).Some?) {
      forall i | 0 <= i < |ne| { ParsedHasOneSeparator(ne[i], sep); }
    }
  }

  // ---- The step invariant -------------------------------------------------

  /** What the steps have established after the tokens seen so far. */
  predicate StepsInvariant(negative: bool, tokens: seq<string>, p: ParseState, sep: char)
    requires |tokens| <= 7
  {
    var ne := NonEmpty(tokens);
    && p.field.isNegative == negative
    && (p.error.None? <==> Accepted(ne, sep))
    && (forall i :: 0 <= i < |ne| && Accepted(ne[..i], sep) && TokenError(ne[i], PreviousHasSeparator(ne, i), sep).Some?
          ==> p.error == TokenError(ne[i], PreviousHasSeparator(ne, i), sep))
    && (p.error.None? ==>
          && (p.field.hasComma || p.field.hasDecimal <==> PreviousHasSeparator(ne, |ne|))
          && p.duration.isNegative == negative
          && (forall k :: 0 <= k < |tokens| ==> Field(p.duration, k) == ExpectedField(negative, tokens[k], sep))
          && (forall k :: |tokens| <= k < 7 ==> Field(p.duration, k) == Zero))
  }

  lemma AcceptedPrefix(ne: seq<string>, t: string, sep: char)
    ensures Accepted(ne + [t], sep) ==> Accepted(ne, sep)
    ensures Accepted(ne, sep) ==> (Accepted(ne + [t], sep) <==> TokenError(t, PreviousHasSeparator(ne, |ne|), sep).None?)
  {
    var ne' := ne + [t];
    assert forall i :: 0 <= i < |ne| ==> ne'[i] == ne[i] && PreviousHasSeparator(ne', i) == PreviousHasSeparator(ne, i);
    assert ne'[|ne|] == t;
  }

  lemma {:induction false} StepsInvariantHolds(negative: bool, tokens: seq<string>, sep: char)
    requires |tokens| <= 7
    ensures StepsInvariant(negative, tokens, RunSteps(InitialState(negative), tokens, sep), sep)
  {
    if tokens == [] {
      EmptyFields(negative);
    } else {
      var n := |tokens| - 1;
      var prefix, t := tokens[..n], tokens[n];
      assert prefix + [t] == tokens;
      var p := RunSteps(InitialState(negative), prefix, sep);
      assert RunSteps(InitialState(negative), tokens, sep) == Step(p, t, n, sep);
      StepsInvariantHolds(negative, prefix, sep);
      StepPreserves(negative, prefix, t, p, sep);
    }
  }

  lemma EmptyFields(negative: bool)
    ensures forall k :: 0 <= k < 7 ==> Field(EmptyDuration(negative), k) == Zero
  {}

  lemma StepPreserves(negative: bool, prefix: seq<string>, t: string, p: ParseState, sep: char)
    requires |prefix| < 7
    requires StepsInvariant(negative, prefix, p, sep)
    ensures StepsInvariant(negative, prefix + [t], Step(p, t, |prefix|, sep), sep)
  {
    if t == "" {
      StepSkipsEmpty(negative, prefix, p, sep);
    } else {
      StepReadsToken(negative, prefix, t, p, sep);
    }
  }

  /** An empty token leaves the non-empty tokens, the error and the fields as they were. */
  lemma StepSkipsEmpty(negative: bool, prefix: seq<string>, p: ParseState, sep: char)
    requires |prefix| < 7
    requires StepsInvariant(negative, prefix, p, sep)
    ensures StepsInvariant(negative, prefix + [""], Step(p, "", |prefix|, sep), sep)
  {
    var tokens := prefix + [""];
    assert tokens[..|tokens| - 1] == prefix;
    var ne := NonEmpty(prefix);
    assert NonEmpty(tokens) == ne + [];
    assert ne + [] == ne;
    if p.error.None? {
      assert ExpectedField(negative, "", sep) == Zero;
      ReadFieldAbsent(p.field, sep);
      assert Step(p, "", |prefix|, sep) == p;
    }
  }

  /** A non-empty token extends the non-empty tokens by one and is read into its field. */
  lemma StepReadsToken(negative: bool, prefix: seq<string>, t: string, p: ParseState, sep: char)
    requires |prefix| < 7 && t != ""
    requires StepsInvariant(negative, prefix, p, sep)
    ensures StepsInvariant(negative, prefix + [t], Step(p, t, |prefix|, sep), sep)
  {
    var tokens := prefix + [t];
    assert tokens[..|tokens| - 1] == prefix;
    assert NonEmpty(tokens) == NonEmpty(prefix) + [t];
    ExtendNonEmpty(NonEmpty(prefix), t, sep);
    if p.error.None? {
      StepFromClean(negative, prefix, t, p, sep);
    } else {
      assert Step(p, t, |prefix|, sep) == p;
    }
  }

  /** What the non-empty tokens extended by t share with the old ones. */
  lemma ExtendNonEmpty(ne: seq<string>, t: string, sep: char)
    ensures var ne' := ne + [t];
      && (forall i :: 0 <= i < |ne| ==> ne'[..i] == ne[..i] && ne'[i] == ne[i] && PreviousHasSeparator(ne', i) == PreviousHasSeparator(ne, i))
      && ne'[..|ne|] == ne && ne'[|ne|] == t
      && (PreviousHasSeparator(ne', |ne'|) <==> HasSeparator(t))
    ensures Accepted(ne + [t], sep) ==> Accepted(ne, sep)
    ensures Accepted(ne, sep) ==> (Accepted(ne + [t], sep) <==> TokenError(t, PreviousHasSeparator(ne, |ne|), sep).None?)
  {
    AcceptedPrefix(ne, t, sep);
    var ne' := ne + [t];
    assert forall i :: 0 <= i < |ne| ==> ne'[..i] == ne[..i];
  }

  /** Reading a non-empty token when no message is set yet. */
  lemma StepFromClean(negative: bool, prefix: seq<string>, t: string, p: ParseState, sep: char)
    requires |prefix| < 7 && t != "" && p.error.None?
    requires StepsInvariant(negative, prefix, p, sep)
    requires NonEmpty(prefix + [t]) == NonEmpty(prefix) + [t]
    requires var ne, ne' := NonEmpty(prefix), NonEmpty(prefix) + [t];
      && (forall i :: 0 <= i < |ne| ==> ne'[..i] == ne[..i] && ne'[i] == ne[i] && PreviousHasSeparator(ne', i) == PreviousHasSeparator(ne, i))
      && ne'[..|ne|] == ne && ne'[|ne|] == t
      && (PreviousHasSeparator(ne', |ne'|) <==> HasSeparator(t))
      && (Accepted(ne', sep) <==> TokenError(t, PreviousHasSeparator(ne, |ne|), sep).None?)
    ensures StepsInvariant(negative, prefix + [t], Step(p, t, |prefix|, sep), sep)
  {
    ReadFieldError(p.field, t, sep);
    if ReadField(p.field, t, sep).error.None? {
      CleanStepReads(negative, prefix, t, p, sep);
    } else {
      CleanStepFails(negative, prefix, t, p, sep);
    }
  }

  /** The token's own error becomes the message, and it is the first error. */
  lemma CleanStepFails(negative: bool, prefix: seq<string>, t: string, p: ParseState, sep: char)
    requires |prefix| < 7 && t != "" && p.error.None?
    requires StepsInvariant(negative, prefix, p, sep)
    requires NonEmpty(prefix + [t]) == NonEmpty(prefix) + [t]
    requires var ne, ne' := NonEmpty(prefix), NonEmpty(prefix) + [t];
      && (forall i :: 0 <= i < |ne| ==> ne'[..i] == ne[..i] && ne'[i] == ne[i] && PreviousHasSeparator(ne', i) == PreviousHasSeparator(ne, i))
      && ne'[..|ne|] == ne && ne'[|ne|] == t
      && (PreviousHasSeparator(ne', |ne'|) <==> HasSeparator(t))
      && (Accepted(ne', sep) <==> TokenError(t, PreviousHasSeparator(ne, |ne|), sep).None?)
    requires ReadField(p.field, t, sep).error.Some?
    ensures StepsInvariant(negative, prefix + [t], Step(p, t, |prefix|, sep), sep)
  {
    ReadFieldError(p.field, t, sep);
    var ne := NonEmpty(prefix);
    var o := ReadField(p.field, t, sep);
    assert o.error == TokenError(t, PreviousHasSeparator(ne, |ne|), sep);
    assert Step(p, t, |prefix|, sep) == ParseState(o.state, p.duration, o.error);
  }

  /** The token parses: its field is set and the flags follow its separator. */
  lemma CleanStepReads(negative: bool, prefix: seq<string>, t: string, p: ParseState, sep: char)
    requires |prefix| < 7 && t != "" && p.error.None?
    requires StepsInvariant(negative, prefix, p, sep)
    requires NonEmpty(prefix + [t]) == NonEmpty(prefix) + [t]
    requires var ne, ne' := NonEmpty(prefix), NonEmpty(prefix) + [t];
      && (forall i :: 0 <= i < |ne| ==> ne'[..i] == ne[..i] && ne'[i] == ne[i] && PreviousHasSeparator(ne', i) == PreviousHasSeparator(ne, i))
      && ne'[..|ne|] == ne && ne'[|ne|] == t
      && (PreviousHasSeparator(ne', |ne'|) <==> HasSeparator(t))
      && (Accepted(ne', sep) <==> TokenError(t, PreviousHasSeparator(ne, |ne|), sep).None?)
    requires ReadField(p.field, t, sep).error.None?
    ensures StepsInvariant(negative, prefix + [t], Step(p, t, |prefix|, sep), sep)
  {
    ReadFieldError(p.field, t, sep);
    var tokens := prefix + [t];
    var ne := NonEmpty(prefix);
    var o := ReadField(p.field, t, sep);
    assert o.error == TokenError(t, PreviousHasSeparator(ne, |ne|), sep);
    var d' := WithField(p.duration, |prefix|, o.setValue.value);
    assert Step(p, t, |prefix|, sep) == ParseState(o.state, d', None);
    assert forall k :: 0 <= k < |tokens| ==> Field(d', k) == ExpectedField(negative, tokens[k], sep);
  }

  // ---- What a parse produces -----------------------------------------------

  /** After a match, the result is produced exactly when no message is set. */
  lemma ParseGroupsOutcome(g: Groups, sep: char)
    ensures var r := ParseGroups(g, sep);
      && (r.success <==> r.result.Some?)
      && (r.success <==> r.errorMessage.None?)
  {}

  /** A string the pattern rejects yields `false`, no result and no message. */
  lemma MismatchHasNoMessage(s: string, sep: char)
    ensures Match(s).None? <==> ParseDuration(s, sep) == TryParseResult(false, None, None)
  {
    if Match(s).Some? {
      ParseGroupsOutcome(Match(s).value, sep);
    }
  }

  /** `Parse` returns null exactly on a mismatch, and throws exactly when a message was set; otherwise it returns the parsed value. */
  lemma ParseOutcomes(s: string, sep: char)
    ensures Parse(s, sep) == Returned(None) <==> Match(s).None?
    ensures Parse(s, sep).ThrewFormatException? <==> Match(s).Some? && !ParseDuration(s, sep).success
    ensures ParseDuration(s, sep).success ==> Parse(s, sep) == Returned(ParseDuration(s, sep).result)
  {
    MismatchHasNoMessage(s, sep);
    if Match(s).Some? {
      ParseGroupsOutcome(Match(s).value, sep);
    }
  }

  /** Success is all or nothing: a result is produced exactly when there is no message. */
  lemma AllOrNothing(s: string, sep: char)
    ensures var r := ParseDuration(s, sep);
      && (r.success <==> r.result.Some?)
      && (r.success ==> r.errorMessage.None?)
  {
    if Match(s).Some? {
      ParseGroupsOutcome(Match(s).value, sep);
    }
  }

  /**
    For matching input, the parse succeeds exactly when the non-empty groups
    are accepted by the reference rules; when it fails, the message is the
    reference error of the first failing group.
  */
  lemma ParseAcceptance(s: string, g: Groups, sep: char)
    requires Match(s) == Some(g)
    ensures var ne := NonEmpty(Tokens(g));
      && (ParseDuration(s, sep).success <==> Accepted(ne, sep))
      && (forall i :: 0 <= i < |ne| && Accepted(ne[..i], sep) && TokenError(ne[i], PreviousHasSeparator(ne, i), sep).Some?
            ==> ParseDuration(s, sep).errorMessage == TokenError(ne[i], PreviousHasSeparator(ne, i), sep))
  {
    StepsInvariantHolds(g.negative, Tokens(g), sep);
  }

  /** A successful parse sets the sign from `-`, each present field to its signed number and each absent field to 0. */
  lemma ParsedFields(s: string, g: Groups, sep: char)
    requires Match(s) == Some(g) && ParseDuration(s, sep).success
    ensures var d := ParseDuration(s, sep).result.value;
      && d.isNegative == g.negative == (s[0] == '-')
      && forall k :: 0 <= k < 7 ==> Field(d, k) == ExpectedField(g.negative, Tokens(g)[k], sep)
  {
    StepsInvariantHolds(g.negative, Tokens(g), sep);
    MatchSound(s);
  }

  /** A negative parse has no field above 0, a positive one no field below 0, and absent groups stay 0. */
  lemma ParsedSign(s: string, g: Groups, sep: char)
    requires Match(s) == Some(g) && ParseDuration(s, sep).success
    ensures var d := ParseDuration(s, sep).result.value;
      && (d.isNegative ==> forall k :: 0 <= k < 7 ==> Field(d, k).mantissa <= 0)
      && (!d.isNegative ==> forall k :: 0 <= k < 7 ==> Field(d, k).mantissa >= 0)
      && (forall k :: 0 <= k < 7 && Tokens(g)[k] == "" ==> Field(d, k) == Zero)
  {
    ParsedFields(s, g, sep);
    forall k | 0 <= k < 7 ensures DecimalTryParse(Tokens(g)[k], sep).Some? ==> DecimalTryParse(Tokens(g)[k], sep).value.mantissa >= 0 {
      if DecimalTryParse(Tokens(g)[k], sep).Some? { DecimalTryParseNonNegative(Tokens(g)[k], sep); }
    }
  }

  // ---- Rejected inputs ----------------------------------------------------

  /** The non-empty values of a prefix of the tokens are a prefix of the non-empty values. */
  lemma {:induction false} NonEmptyPrefix(tokens: seq<string>, n: nat)
    requires n <= |tokens|
    ensures |NonEmpty(tokens[..n])| <= |NonEmpty(tokens)|
    ensures NonEmpty(tokens)[..|NonEmpty(tokens[..n])|] == NonEmpty(tokens[..n])
    decreases |tokens| - n
  {
    if n == |tokens| {
      assert tokens[..n] == tokens;
    } else {
      var shorter := tokens[..|tokens| - 1];
      assert shorter[..n] == tokens[..n];
      NonEmptyPrefix(shorter, n);
      var ne := NonEmpty(tokens);
      assert ne[..|NonEmpty(shorter)|] == NonEmpty(shorter);
    }
  }

  /** Empty tokens add no non-empty values. */
  lemma {:induction false} NonEmptySkips(tokens: seq<string>, a: nat, b: nat)
    requires a <= b <= |tokens|
    requires forall k :: a <= k < b ==> tokens[k] == ""
    ensures NonEmpty(tokens[..b]) == NonEmpty(tokens[..a])
    decreases b - a
  {
    if a < b {
      NonEmptySkips(tokens, a, b - 1);
      NonEmptyAppend(tokens, b - 1);
    }
  }

  /** The non-empty values of the first n + 1 tokens. */
  lemma NonEmptyAppend(tokens: seq<string>, n: nat)
    requires n < |tokens|
    ensures NonEmpty(tokens[..n + 1]) == NonEmpty(tokens[..n]) + (if tokens[n] == "" then [] else [tokens[n]])
  {
    assert tokens[..n + 1][..n] == tokens[..n];
  }

  /** The position among the non-empty values of non-empty token n. */
  lemma NonEmptyIndex(tokens: seq<string>, n: nat) returns (i: nat)
    requires n < |tokens| && tokens[n] != ""
    ensures i == |NonEmpty(tokens[..n])| && i < |NonEmpty(tokens)| && NonEmpty(tokens)[i] == tokens[n]
  {
    i := |NonEmpty(tokens[..n])|;
    NonEmptyAppend(tokens, n);
    NonEmptyPrefix(tokens, n + 1);
    var ne := NonEmpty(tokens);
    assert ne[..i + 1] == NonEmpty(tokens[..n + 1]);
    assert ne[i] == ne[..i + 1][i];
  }

  /**
    Two components that carry a separator, with only absent components
    between them, make the parse fail: the check that a fraction is only in
    the last component looks at the previous non-empty component.
  */
  lemma FractionsRejected(s: string, g: Groups, sep: char, a: nat, b: nat)
    requires Match(s) == Some(g)
    requires a < b < 7
    requires HasSeparator(Tokens(g)[a]) && HasSeparator(Tokens(g)[b])
    requires forall k :: a < k < b ==> Tokens(g)[k] == ""
    ensures !ParseDuration(s, sep).success && ParseDuration(s, sep).result.None?
  {
    var ts := Tokens(g);
    var ia := NonEmptyIndex(ts, a);
    var ib := NonEmptyIndex(ts, b);
    NonEmptyAppend(ts, a);
    NonEmptySkips(ts, a + 1, b);
    assert ib == ia + 1;
    var ne := NonEmpty(ts);
    assert HasSeparator(ne[ib - 1]) && HasSeparator(ne[ib]);
    AcceptedIff(ne, sep);
    ParseAcceptance(s, g, sep);
    AllOrNothing(s, sep);
  }

  /** A component holding both ',' and '.' makes the parse fail. */
  lemma MixedSeparatorsRejected(s: string, g: Groups, sep: char, a: nat)
    requires Match(s) == Some(g)
    requires a < 7
    requires ',' in Tokens(g)[a] && '.' in Tokens(g)[a]
    ensures !ParseDuration(s, sep).success && ParseDuration(s, sep).result.None?
  {
    var ts := Tokens(g);
    var i := NonEmptyIndex(ts, a);
    var ne := NonEmpty(ts);
    assert TokenError(ne[i], PreviousHasSeparator(ne, i), sep).Some?;
    ParseAcceptance(s, g, sep);
    AllOrNothing(s, sep);
  }
}

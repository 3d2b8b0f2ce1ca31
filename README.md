# Iso8601Helper durations and time intervals, in Dafny

This project models the core of the C# library Iso8601Helper:

- `IsoDuration` is an ISO 8601 duration such as `-P3Y6M4DT12H30M5.123S`.
  The model covers its regular expression and its component reader
  `ParseField`, with the flags that reader keeps. It also covers `TryParse`,
  `Parse`, `ToString` and the derived properties `IsEmpty`, `IsAmbiguous`,
  `IsExact`, `HasDate` and `HasTime`.
- `IsoTimeInterval.TryParse` classifies an ISO 8601 interval. It cuts the
  text at `/` or `--` and classifies each section as a timestamp or a
  duration.

There are twelve modules:

- `Wrappers`: `Option`.
- `Decimals`: the part of .NET `decimal` the library uses. A value is
  `Dec(mantissa, scale)`, meaning mantissa / 10^scale. .NET keeps the scale,
  so `1.50` and `1.5` compare equal with .NET's `==` (`SameValue`) but
  format differently. Every comparison in IsoDuration.cs is against 0, and
  `IsZero` looks only at the mantissa, so those are reproduced
  (`ZeroIsSameValue`). The model's `==` on `Dec` is the stronger equality of
  representation. `ParseFormatRoundTrip` and the `DurationExamples` lemmas
  use it, which is why `Canonical` rules out a zero with a scale.
  - `DecimalTryParse` is `decimal.TryParse` with `NumberStyles.AllowDecimalPoint`.
  - `FormatDec` is the default formatting.
  - Both take the culture's decimal separator as a parameter.
- `DurationGrammar`: the regular expression `IsoRegex`.
  - `Match` is a scanner that returns the sign and the seven optional group
    values.
  - `Render` writes a group record back as text.
  - `MatchIff` proves that the two are inverse: `Match(s) == Some(g)`
    exactly when `g` is well formed and `Render(g) == s`.
- `Durations`: the value of an `IsoDuration` (`Duration`), its derived
  properties, and `Format`, which is `ToString(provider)`.
- `DurationParsing`: `TryParse` and `Parse` as functions.
  - `ReadField` is one call of `ParseField.TryParse`.
  - `RunSteps` threads the reader's flags through the seven calls and stops
    at the first error.
  - `Accepted` and `TokenError` describe, independently, which inputs
    succeed and which message the first failure reports. `ParseAcceptance`
    connects the two.
- `DurationRoundTrip`: parsing the text `ToString` writes gives back the
  value.
- `RoundTripGap`: where that round trip stops. A value the parser produces
  can format to text the parser rejects.
- `IsoDurationObjects`: the classes, as the source writes them.
  - `ParseField` has the mutable `IsNegative`, `HasComma` and `HasDecimal`.
  - `IsoDuration` has mutable properties. `TryParse` fills a fresh object,
    and `ToString` uses a string builder.
  - Each method is proved equal to a function above:
    `ParseField.TryParse` to `ReadField`, `IsoDuration.TryParse` to
    `ParseDuration`, `IsoDuration.Parse` to `DurationParsing.Parse`,
    `ToString` to `Format`, and the constructors and `SetField` to
    `FromFields` and `WithField`.
- `Splitting`: `String.IndexOf` and `String.Split(string[], StringSplitOptions.None)`.
- `IsoTimeIntervals`: `IsoTimeIntervalKind`, the `IsoTimeInterval` class and
  its `TryParse`, with a reference function `Classify`. `TryParse` is proved
  equal to `Classify`, `ReadSingle` to `ClassifySingle` and `ReadPair` to
  `ClassifyPair`.
- `DurationExamples`, `DurationRejections`: the library's own test inputs,
  proved.

Some behaviour of the code that the proofs make explicit:

- **Last-component rule.** The "Decimal fraction can only be specified in
  last component" check only compares a component with the previous
  non-empty component. The reader overwrites its `HasComma`/`HasDecimal`
  flags with every non-empty component. So `P1.5Y2M2.5D` is accepted, and so
  is `P1.5Y2M`. What is actually rejected is two consecutive non-empty
  components that both carry a separator (`AcceptedIff`). The model follows
  the code here. One consequence is that some values the parser produces do
  not survive a round trip. `P1.5Y0M2.5D` is accepted with years 1.5 and
  days 2.5. `ToString` leaves out the zero months and writes `P1.5Y2.5D`,
  which the parser rejects (`RoundTripGap.ParsedValueDoesNotRoundTrip`).
- **Empty groups.** The grammar accepts empty group values such as `PY`,
  `PT` or `P` itself. Empty values are skipped: the field keeps 0.
- **Mixed separators.** A component containing both `,` and `.` is
  rejected under every culture. The culture's separator only decides which
  of the two `decimal.TryParse` accepts.
- **`Solidus` is never updated.** The `--` separator is chosen when the
  text has no `/`. The re-split at `--` inside the one-section branch
  (IsoTimeInterval.cs:59-67) can never find two or more sections, because a
  text without `/` has already been split at `--`. The method keeps that
  branch, and its proof shows it is dead, so `Solidus` always stays `/`.
  The reference function `Classify` leaves the branch out.
- **Kinds never produced.** `TryParse` never produces the kinds `DateTime`,
  `Start` or `End`.

## Model

| member | source | states |
|---|---|---|
| Decimals.NegateInvolution | Iso8601Helper/IsoDuration.cs:108-109 | negating twice gives the value back, negation turns a positive value into a negative one and back, keeps zero at zero, and keeps the absolute value |
| Decimals.Abs | Iso8601Helper/IsoDuration.cs:250-253 | `Math.Abs` keeps the scale; it is the identity on non-negative values, and negating it gives back a non-positive value |
| Decimals.IndexOfChar | Iso8601Helper/IsoDuration.cs:105 | the separator scan of `decimal.TryParse` finds the first occurrence of the separator, or reports that there is none |
| Decimals.ScaleKeptButEqual | Iso8601Helper.Test/IsoDurationTests.cs:69-75 | `1.50` and `1.5` compare equal as .NET's `!=` on components does, yet they are distinct representations that format as `1.50` and `1.5` |
| Decimals.FormatDecRoundTrip | Iso8601Helper/IsoDuration.cs:105 | `decimal.TryParse` of the default formatting of a non-negative decimal gives back the same mantissa and scale, for any non-digit separator |
| Decimals.FormatDecSeparator | Iso8601Helper/IsoDuration.cs:250-262 | the formatted decimal contains the separator exactly when its scale is positive, and otherwise only digits |
| Decimals.DecimalTryParseNonNegative | Iso8601Helper/IsoDuration.cs:105 | with `AllowDecimalPoint` only, a parsed value is never negative, has a fraction only when the separator occurs, and the text is non-empty |
| Decimals.ParseWithSeparator | Iso8601Helper/IsoDuration.cs:105 | digits, the separator, then digits parse to the concatenated digits with the fraction's length as scale |
| DurationGrammar.MatchIff | Iso8601Helper/IsoDuration.cs:11 | the regular expression matches s with groups g exactly when g is well formed and renders as s |
| DurationGrammar.MatchRender | Iso8601Helper/IsoDuration.cs:11 | every well-formed group record is what the expression captures from its own text |
| DurationGrammar.MatchSound | Iso8601Helper/IsoDuration.cs:11 | whatever the expression matches is a well-formed group record that renders back to the input |
| DurationGrammar.ScanRender | Iso8601Helper/IsoDuration.cs:11 | the optional `(?:([0-9,.]*)X)?` groups, read in order, recover exactly the groups that were written |
| DurationGrammar.ScanSound | Iso8601Helper/IsoDuration.cs:11 | the groups read are number-character tokens, and the text is those groups followed by the rest |
| DurationGrammar.SplitToken | Iso8601Helper/IsoDuration.cs:11 | the greedy `[0-9,.]*` takes the longest run of number characters |
| DurationGrammar.Tokens | Iso8601Helper/IsoDuration.cs:209-215 | `match.Groups[2..8].Value`: seven values, empty for a group that did not take part |
| DurationGrammar.GrammarAcceptsBareP | Iso8601Helper/IsoDuration.cs:11 | `P` alone matches, with every group absent |
| DurationGrammar.GrammarAcceptsBareT | Iso8601Helper/IsoDuration.cs:11 | `PT` matches, with the time part present and empty |
| DurationGrammar.GrammarAcceptsEmptyGroup | Iso8601Helper/IsoDuration.cs:11 | `PY` matches, with an empty years value |
| DurationGrammar.GrammarRejectsDateOutOfOrder | Iso8601Helper/IsoDuration.cs:11 | the date designators must come in the order Y, M, W, D |
| DurationGrammar.GrammarRejectsTimeOutOfOrder | Iso8601Helper/IsoDuration.cs:11 | the time designators must come in the order H, M, S |
| DurationGrammar.GrammarRejectsLowerCase | Iso8601Helper/IsoDuration.cs:11 | designators and `P` are case-sensitive |
| DurationGrammar.GrammarRejectsMisplaced | Iso8601Helper/IsoDuration.cs:11 | a time designator before `T`, or two signs, do not match |
| Durations.Fields | Iso8601Helper/IsoDuration.cs:29-35 | the seven components, in order |
| Durations.WithField | Iso8601Helper/IsoDuration.cs:209-215 | a `setProp` assignment sets one component and leaves the sign and the other components unchanged |
| Durations.DurationExtensionality | Iso8601Helper/IsoDuration.cs:28-35 | two durations with the same sign and the same components are equal |
| Durations.FromFields | Iso8601Helper/IsoDuration.cs:16-26 | the component constructor stores the seven values, and the duration is negative exactly when some component is negative |
| Durations.FormatMatches | Iso8601Helper/IsoDuration.cs:244-264 | for a `.` or `,` separator, the text `ToString` writes matches the regular expression, with the groups of the non-zero components |
| Durations.FormatRendersGroups | Iso8601Helper/IsoDuration.cs:244-264 | for a `.` or `,` separator, `ToString` is the rendering of the group record that holds the absolute values of the non-zero components |
| Durations.FormatSign | Iso8601Helper/IsoDuration.cs:248-249 | the text starts with `-` exactly when the duration is negative, followed by `P` |
| Durations.FormatTimePart | Iso8601Helper/IsoDuration.cs:255-261 | for a `.` or `,` separator, the text contains `T` exactly when the duration has a time component |
| Durations.FormatEmpty | Iso8601Helper/IsoDuration.cs:244-264 | the text is the bare `P` (or `-P`) exactly when every component is zero |
| Durations.ComponentEmpty | Iso8601Helper/IsoDuration.cs:250-253 | a component is written exactly when it is non-zero |
| Durations.DateTextEmpty | Iso8601Helper/IsoDuration.cs:250-253 | no date component is written exactly when the duration has no date part |
| Durations.AmbiguousIsHasDate | Iso8601Helper/IsoDuration.cs:135-154 | `IsAmbiguous` is `HasDate`, and `IsExact` is its negation |
| Durations.EmptyIsNoParts | Iso8601Helper/IsoDuration.cs:125-162 | `IsEmpty` holds exactly when there is neither a date nor a time part, and exactly when all seven components are zero |
| DurationParsing.ReadFieldAbsent | Iso8601Helper/IsoDuration.cs:83-85 | an empty component is skipped: the result is null, there is no message, `setProp` is not called and the flags are unchanged |
| DurationParsing.ReadFieldError | Iso8601Helper/IsoDuration.cs:85-118 | a non-empty component reports the last-component, mixed-separator or parse-failure message in that order; on success it overwrites the flags with what the component contains, calls `setProp` with the signed number, and returns true |
| DurationParsing.ParsedHasOneSeparator | Iso8601Helper/IsoDuration.cs:95-105 | a component `decimal.TryParse` accepts holds digits and the culture's separator only, so never both `,` and `.` |
| DurationParsing.AcceptedIff | Iso8601Helper/IsoDuration.cs:85-116 | the parse succeeds exactly when every non-empty component is a number and no two consecutive non-empty components both carry a separator |
| DurationParsing.AcceptedPrefix | Iso8601Helper/IsoDuration.cs:209-215 | acceptance of the components read so far is kept by each further call exactly when that call reports no error |
| DurationParsing.StepsInvariantHolds | Iso8601Helper/IsoDuration.cs:208-215 | after each call the error, the flags and the assigned components are what the reference rules give for the components seen so far |
| DurationParsing.StepPreserves | Iso8601Helper/IsoDuration.cs:209-215 | one guarded `ParseField.TryParse` call keeps the invariant |
| DurationParsing.ParseAcceptance | Iso8601Helper/IsoDuration.cs:196-232 | for matched text, `TryParse` succeeds exactly when the components are accepted, and its message is the error of the first failing component |
| DurationParsing.ParsedFields | Iso8601Helper/IsoDuration.cs:205-215 | on success the sign is the regex's `-`, and each component is the signed number of its group, or 0 when the group is empty |
| DurationParsing.ParsedSign | Iso8601Helper/IsoDuration.cs:108-109 | on success all the components of a negative duration are non-positive, those of a positive one non-negative, and absent components are 0 |
| DurationParsing.ParseGroupsOutcome | Iso8601Helper/IsoDuration.cs:216-225 | after a match, success, a result and the absence of a message go together |
| DurationParsing.MismatchHasNoMessage | Iso8601Helper/IsoDuration.cs:199-230 | text the expression does not match fails with no result and no message, and only such text does |
| DurationParsing.AllOrNothing | Iso8601Helper/IsoDuration.cs:196-232 | `TryParse` returns a result exactly when it succeeds, and a success carries no message |
| DurationParsing.ParseOutcomes | Iso8601Helper/IsoDuration.cs:169-177 | `Parse` returns null for unmatched text, throws `FormatException` exactly when the match fails in a component, and otherwise returns the parsed duration |
| DurationParsing.FractionsRejected | Iso8601Helper/IsoDuration.cs:90-94 | two non-empty components with separators and only empty groups between them make the parse fail with no result |
| DurationParsing.MixedSeparatorsRejected | Iso8601Helper/IsoDuration.cs:95-99 | a component holding both `,` and `.` makes the parse fail with no result |
| DurationRoundTrip.FieldTokenParses | Iso8601Helper/IsoDuration.cs:250-253 | each written component is non-empty, parses back to its absolute value, and carries a separator exactly when it has a fraction |
| DurationRoundTrip.TokensFollowFlags | Iso8601Helper/IsoDuration.cs:250-261 | the non-empty written components parse and carry separators exactly where the fraction flags say |
| DurationRoundTrip.ParseFormatRoundTrip | Iso8601Helper/IsoDuration.cs:196-264 | `TryParse` of `ToString(d)` under the same culture succeeds with d itself and no message, for every canonical d and a `.` or `,` separator |
| DurationRoundTrip.FormatParseIdentity | Iso8601Helper.Test/IsoDurationTests.cs:62-65 | for a `.` or `,` separator, text written from a canonical duration parses, and writing the result again gives the same text |
| DurationRoundTrip.OneFractionCanonical | Iso8601Helper/IsoDuration.cs:244-264 | a duration with consistent signs, plain zeros and at most one fractional component is canonical |
| RoundTripGap.YearsMonthsDaysMatch | Iso8601Helper/IsoDuration.cs:11 | `P<y>Y<m>M<d>D` matches with exactly the years, months and days groups set |
| RoundTripGap.WholeBetweenTokens | Iso8601Helper/IsoDuration.cs:90-102 | years, months and days values are accepted, with those values, when the months value has no separator, whatever the other two carry |
| RoundTripGap.WholeBetweenAccepted | Iso8601Helper/IsoDuration.cs:90-102 | the formatted years, whole months and days values are read back as exactly those values |
| RoundTripGap.FormattedFractionsRejected | Iso8601Helper/IsoDuration.cs:90-94 | a duration whose text has two fractional components with only zero components between them cannot be read back |
| RoundTripGap.GapFormat | Iso8601Helper/IsoDuration.cs:244-264 | years 1.5 and days 2.5 format as `P1.5Y2.5D`, with the zero months left out |
| RoundTripGap.OtherSeparatorDoesNotRoundTrip | Iso8601Helper/IsoDuration.cs:11 | under the Arabic decimal separator U+066B, years 1.5 are written `P1٫5Y`, which does not match the regular expression, so `TryParse` fails with no message |
| RoundTripGap.ParsedValueDoesNotRoundTrip | Iso8601Helper/IsoDuration.cs:196-264 | `P1.5Y0M2.5D` parses to years 1.5 and days 2.5, and the text `ToString` writes for that value is rejected |
| IsoDurationObjects.ParseField.constructor | Iso8601Helper/IsoDuration.cs:208 | `new ParseField() { IsNegative = negative }` starts with both separator flags false |
| IsoDurationObjects.ParseField.TryParse | Iso8601Helper/IsoDuration.cs:81-119 | returns the result, the message and the value passed to `setProp` that `ReadField` gives, and updates the flags as it does |
| IsoDurationObjects.ParseField.Parse | Iso8601Helper/IsoDuration.cs:51-58 | throws the message `TryParse` reports; otherwise returns its result and value |
| IsoDurationObjects.IsoDuration.constructor | Iso8601Helper/IsoDuration.cs:13-14 | a new duration is positive with every component 0 |
| IsoDurationObjects.IsoDuration.FromComponents | Iso8601Helper/IsoDuration.cs:16-26 | the component constructor's object has the value `FromFields` gives |
| IsoDurationObjects.IsoDuration.SetField | Iso8601Helper/IsoDuration.cs:29-35 | assigning one component property changes that component only |
| IsoDurationObjects.IsoDuration.ToString | Iso8601Helper/IsoDuration.cs:244-264 | the string builder produces `Format` of the object's value |
| IsoDurationObjects.IsoDuration.AppendComponent | Iso8601Helper/IsoDuration.cs:250 | `AppendFormat("{0}X", Math.Abs(v))` appends the component's text |
| IsoDurationObjects.IsoDuration.AppendDate | Iso8601Helper/IsoDuration.cs:250-253 | the four date appends add the date text |
| IsoDurationObjects.IsoDuration.AppendTime | Iso8601Helper/IsoDuration.cs:258-260 | the three time appends add the time components |
| IsoDurationObjects.IsoDuration.ParseStep | Iso8601Helper/IsoDuration.cs:209-215 | one guarded reader call updates the reader and the duration as `Step` does |
| IsoDurationObjects.IsoDuration.ReadGroups | Iso8601Helper/IsoDuration.cs:203-215 | the seven guarded calls leave a fresh object and message as `RunSteps` does |
| IsoDurationObjects.IsoDuration.TryParse | Iso8601Helper/IsoDuration.cs:196-232 | success, result object and message are those of `ParseDuration` |
| IsoDurationObjects.IsoDuration.Parse | Iso8601Helper/IsoDuration.cs:169-177 | returns, returns null or throws `FormatException` as `DurationParsing.Parse` says |
| IsoDurationObjects.SevenSteps | Iso8601Helper/IsoDuration.cs:209-215 | the fold over seven components is the seven calls written out |
| IsoDurationObjects.StepsExtend | Iso8601Helper/IsoDuration.cs:209-215 | each further call extends the fold by one step |
| Splitting.IndexOf | Iso8601Helper/IsoTimeInterval.cs:50 | `IndexOf(string)` returns the first occurrence, or none when the text does not contain the separator |
| Splitting.JoinSplit | Iso8601Helper/IsoTimeInterval.cs:55 | joining the sections with the separator gives back the input |
| Splitting.SplitPiecesAreFree | Iso8601Helper/IsoTimeInterval.cs:55 | no section contains the separator |
| Splitting.SplitSingle | Iso8601Helper/IsoTimeInterval.cs:55 | the text is one section exactly when it does not contain the separator |
| Splitting.SplitMoreThanTwo | Iso8601Helper/IsoTimeInterval.cs:55-57 | there are more than two sections exactly when the separator occurs again after its first occurrence |
| Splitting.SplitTwo | Iso8601Helper/IsoTimeInterval.cs:55 | two sections are the text before and after the separator |
| Splitting.SplitOfTwoParts | Iso8601Helper/IsoTimeInterval.cs:55 | two separator-free parts joined by the separator split into exactly those parts |
| Splitting.MissingFirstChar | Iso8601Helper/IsoTimeInterval.cs:50 | text lacking the separator's first character does not contain it |
| IsoTimeIntervals.IsoTimeInterval.constructor | Iso8601Helper/IsoTimeInterval.cs:14-20 | a new interval holds the input, `Solidus` is `/`, the kind is `Invalid` and start, end and duration are unset |
| IsoTimeIntervals.IsoTimeInterval.TryParse | Iso8601Helper/IsoTimeInterval.cs:43-115 | returns its result with a fresh interval whose properties are those `Classify` gives, or throws; a throw for blank text leaves the caller's variable as it was, and a later throw leaves it holding the fresh interval in the state `Classify` gives |
| IsoTimeIntervals.IsoTimeInterval.ReadSingle | Iso8601Helper/IsoTimeInterval.cs:68-78 | one section is a `Duration` interval exactly when the duration recogniser accepts it |
| IsoTimeIntervals.IsoTimeInterval.ReadPair | Iso8601Helper/IsoTimeInterval.cs:81-111 | the classification loop and the kind mapping set start, end, duration and kind, or throw, as `ClassifyPair` gives |
| IsoTimeIntervals.SlashGivesTwoSections | Iso8601Helper/IsoTimeInterval.cs:50-55 | text containing `/` splits at `/` into at least two sections |
| IsoTimeIntervals.BlankThrows | Iso8601Helper/IsoTimeInterval.cs:45-46 | `ArgumentNullException("input")` is thrown exactly for null-or-white-space text |
| IsoTimeIntervals.SeparatorChoice | Iso8601Helper/IsoTimeInterval.cs:49-53 | the separator is `/` exactly when the text contains `/`, and `--` otherwise |
| IsoTimeIntervals.TooManySeparators | Iso8601Helper/IsoTimeInterval.cs:54-57 | the "Too many Solidus" exception is thrown exactly when the chosen separator occurs twice, leaving an interval with the input and all its sections |
| IsoTimeIntervals.SingleSection | Iso8601Helper/IsoTimeInterval.cs:68-78 | text with neither separator returns true with kind `Duration` exactly when the duration recogniser accepts it, and false with kind `Invalid` otherwise |
| IsoTimeIntervals.TwoSections | Iso8601Helper/IsoTimeInterval.cs:54-55 | two sections are the text around the separator, and they are classified as a pair |
| IsoTimeIntervals.PairStartEnd | Iso8601Helper/IsoTimeInterval.cs:87-94 | two timestamps give `StartEnd` with start and end set, exactly |
| IsoTimeIntervals.PairStartDuration | Iso8601Helper/IsoTimeInterval.cs:95-105 | a timestamp and then a duration (that is not also a timestamp) give `StartDuration`, exactly |
| IsoTimeIntervals.PairDurationEnd | Iso8601Helper/IsoTimeInterval.cs:95-107 | a duration and then a timestamp give `DurationEnd`, exactly |
| IsoTimeIntervals.PairRejected | Iso8601Helper/IsoTimeInterval.cs:108-111 | every other pair throws `ArgumentException` naming both section kinds, leaving the interval with the start, end and duration the loop set, and a pair that does not throw returns true |
| IsoTimeIntervals.ReturnedShapes | Iso8601Helper/IsoTimeIntervalKind.cs:3-13 | a returning call leaves `Solidus` at `/`, never yields `DateTime`, `Start` or `End`, returns true exactly when the kind is not `Invalid`, and keeps sections that join back to the input |
| IsoTimeIntervals.DurationOfPair | Iso8601Helper/IsoTimeInterval.cs:95-99 | `Duration` is the duration of the last section that is a duration but not a timestamp |
| IsoTimeIntervals.PairAround | Iso8601Helper/IsoTimeInterval.cs:49-55 | text `a/b` with no other `/` is classified as the pair a, b |
| IsoTimeIntervals.StartEndInput | Iso8601Helper/IsoTimeInterval.cs:102-103 | `a/b` with two timestamps returns true with kind `StartEnd` |
| IsoTimeIntervals.StartDurationInput | Iso8601Helper/IsoTimeInterval.cs:104-105 | `a/b` with a timestamp and a duration returns true with kind `StartDuration` |
| IsoTimeIntervals.DurationEndInput | Iso8601Helper/IsoTimeInterval.cs:106-107 | `a/b` with a duration and a timestamp returns true with kind `DurationEnd` |
| IsoTimeIntervals.TestStartEnd | Iso8601Helper.Test/IsoIntervalTests.cs:14 | the first test input returns true |
| IsoTimeIntervals.TestStartDuration | Iso8601Helper.Test/IsoIntervalTests.cs:15 | the second test input returns true |
| IsoTimeIntervals.TestDurationEnd | Iso8601Helper.Test/IsoIntervalTests.cs:16 | the third test input returns true |
| IsoTimeIntervals.TestDurationOnly | Iso8601Helper.Test/IsoIntervalTests.cs:17 | the duration-only test input returns true |
| DurationExamples.NegativeWeeks | Iso8601Helper.Test/IsoDurationTests.cs:87 | `-P2W` parses to negative weeks -2 and formats back to `-P2W` |
| DurationExamples.NegativeFractionalWeeks | Iso8601Helper.Test/IsoDurationTests.cs:99 | `-P2.2W` parses to weeks -2.2 and formats back to itself |
| DurationExamples.FractionalYears | Iso8601Helper.Test/IsoDurationTests.cs:94 | `P0.75Y` parses to years 0.75 and formats back to itself |
| DurationExamples.DaysAndHours | Iso8601Helper.Test/IsoDurationTests.cs:97 | `P1DT12H` parses to one day and twelve hours and formats back to itself |
| DurationExamples.CommaSeconds | Iso8601Helper.Test/IsoDurationTests.cs:112 | under a comma culture `PT12,345S` parses to seconds 12.345 |
| DurationExamples.CommaSecondsText | Iso8601Helper.Test/IsoDurationTests.cs:112 | seconds 12.345 format as `PT12,345S` under a comma culture |
| DurationExamples.BareDesignator | Iso8601Helper/IsoDuration.cs:11 | `P` parses to the empty duration and the empty duration formats as `P` |
| DurationRejections.FractionBeforeLast | Iso8601Helper.Test/IsoDurationTests.cs:126 | `P1.1YT2.5H` fails to parse |
| DurationRejections.NegativeFractionBeforeLast | Iso8601Helper.Test/IsoDurationTests.cs:127 | `-P1.1YT2.5H` fails to parse |
| DurationRejections.CommaThenPoint | Iso8601Helper.Test/IsoDurationTests.cs:128 | `P100,000.123D` fails to parse |
| DurationRejections.PointThenComma | Iso8601Helper.Test/IsoDurationTests.cs:129 | `P100.000,123D` fails to parse |
| DurationRejections.YearsHoursMatch | Iso8601Helper/IsoDuration.cs:11 | a years group followed by an hours group matches with exactly those two values |
| DurationRejections.DaysMatch | Iso8601Helper/IsoDuration.cs:11 | a lone days group matches with that value |

## Left out

- `IsoDuration.Add` and `AddField` (IsoDuration.cs:276-331) are left out. They split decimal components into calendar units and fractions through `DateTimeOffset.AddYears`/`AddMonths`/`AddDays` and `double` arithmetic. This is calendar arithmetic in floating point, which the model does not represent.
- `GetHashCode` (IsoDuration.cs:343-346) is left out, because it returns a platform hash code. The commented-out `FromInterval(DateTime, DateTime)` and `FromInterval(DateTimeOffset, DateTimeOffset)` (IsoDuration.cs:266-274) and `Subtract(DateTime)` and `Subtract(DateTimeOffset)` (IsoDuration.cs:333-341) are not code.
- `DateTimeOffset.TryParse` is a culture-dependent recogniser, and `XmlConvert.ToTimeSpan` reads the culture-invariant XML Schema duration format. Both are platform code outside the library. They are function parameters (`timestamp`, `duration`), and their values are opaque datatypes.
- The overloads that use `CultureInfo.CurrentCulture` are represented by the decimal separator parameter. The only part of the provider the code depends on is the decimal separator. .NET's `NumberDecimalSeparator` is a string; the model takes one character, so multi-character separators are not modelled.
- `DurationGrammar.Match` rejects text that ends in `"\n"`, such as `"P1Y\n"`, where .NET accepts it (with years 1), because .NET `$` also matches before a final `"\n"`. `MatchIff` agrees with .NET only for text that does not end in `"\n"`.
- A null `input` is not modelled, because Dafny strings are values. For an interval, a blank string takes the null branch.
- `DecimalTryParse`: does not model the 28–29 significant digits of .NET decimal or its overflow failure. Mantissas are unbounded integers.
- `Char.IsWhiteSpace` is modelled by its list of code points. `IndexOf(string)` is treated as ordinal, where .NET uses a culture-sensitive comparison.
- `IsoTimeIntervals.PairRejected`: states the `ArgumentException` message of two invalid sections without the parameter suffix that .NET appends to `Message`. The model keeps the parameter name as a separate field.
- `Durations.FormatMatches`, `Durations.FormatRendersGroups`, `Durations.FormatTimePart`, `DurationRoundTrip.ParseFormatRoundTrip`, `DurationRoundTrip.FormatParseIdentity`: hold only for a `.` or `,` separator. Under a culture with another decimal separator, `ToString` writes a fractional component (IsoDuration.cs:250-253) with a character that the regular expression's `[0-9,.]*` (IsoDuration.cs:11) does not accept. That text does not match, and `TryParse` cannot read it back (`RoundTripGap.OtherSeparatorDoesNotRoundTrip`).
- `DurationRoundTrip.ParseFormatRoundTrip`: holds only for canonical values. `ToString` writes a zero with a scale (such as `0.0`) as absent. A duration whose components disagree in sign reads back with all components of the sign's direction. Two fractional components with only zero components between them are written next to each other and rejected on reading. Not every value the parser produces round-trips: `RoundTripGap.ParsedValueDoesNotRoundTrip` shows that `P1.5Y0M2.5D` parses to a value whose text `P1.5Y2.5D` is rejected. `OneFractionCanonical` shows that values with consistent signs, plain zeros and at most one fraction are canonical.
- `DurationRejections.FractionBeforeLast`, `DurationRejections.NegativeFractionBeforeLast`, `DurationRejections.CommaThenPoint`, `DurationRejections.PointThenComma`: state only that the parse fails, as the tests check, not the message text. `ParseAcceptance` states the message in general.
- `ParseField`'s `setProp` callback is modelled as the value it would receive. The `IsoDuration` methods then assign it to the component property chosen by the group index.

/**
  `IsoTimeInterval.TryParse`: the text is cut at `/` (or, when it has
  none, at `--`) into at most two sections; one section must be a duration,
  two sections are each tried as a timestamp and then as a duration, and the
  pair of section kinds decides the interval kind.

  The two recognisers the code calls, `DateTimeOffset.TryParse` and
  `XmlConvert.ToTimeSpan`, are parameters: `timestamp(s)` is the value
  `DateTimeOffset.TryParse` produces for s, or None when it fails, and
  `duration(s)` the same for `XmlConvert.ToTimeSpan`.
*/
module IsoTimeIntervals {
  import opened Wrappers
  import opened Splitting

  /** `IsoTimeIntervalKind`. */
  datatype IsoTimeIntervalKind = Invalid | DateTime | Start | End | StartEnd | StartDuration | DurationEnd | Duration

  /** The private `SectionKind` enumeration; `Invalid` is its default. */
  datatype SectionKind = Invalid | DateTime | Duration

  /** A `DateTimeOffset` as the recogniser returns it: clock ticks and the offset from UTC in minutes. */
  datatype DateTimeOffset = DateTimeOffset(ticks: int, offsetMinutes: int)

  /** A `TimeSpan`: a signed number of ticks. */
  datatype TimeSpan = TimeSpan(ticks: int)

  type TimestampRecogniser = string -> Option<DateTimeOffset>
  type DurationRecogniser = string -> Option<TimeSpan>

  const PrimarySolidus: string := "/"
  const SecondarySolidus: string := "--"
  const ParamName: string := "input"

  /** The exceptions `TryParse` throws, with the parameter name they carry. */
  datatype Exception = ArgumentNullException(paramName: string) | ArgumentException(message: string, paramName: string)

  /** The property values of an `IsoTimeInterval`. */
  datatype IntervalState = IntervalState(
    input: string, sections: seq<string>, solidus: string, kind: IsoTimeIntervalKind,
    start: Option<DateTimeOffset>, end: Option<DateTimeOffset>, duration: Option<TimeSpan>)

  /**
    What a call of `TryParse` does: return its result with the interval it
    built, or throw. The `out` parameter is assigned before the checks that
    throw `ArgumentException`, so a throw leaves the caller's variable
    holding the object as it was at the throw (`Some`), or, for the blank
    check that comes first, unchanged (`None`).
  */
  datatype Outcome = Returned(result: bool, interval: IntervalState) | Threw(exception: Exception, partial: Option<IntervalState>)

  /** `Char.IsWhiteSpace`: the Unicode space separators, the line and paragraph separators, U+0009 to U+000D, U+0085 and U+00A0. */
  predicate IsWhiteSpace(c: char) {
    || c == ' ' || ('\t' <= c <= '\r') || c == '\U{0085}' || c == '\U{00A0}' || c == '\U{1680}'
    || ('\U{2000}' <= c <= '\U{200A}') || c == '\U{2028}' || c == '\U{2029}' || c == '\U{202F}'
    || c == '\U{205F}' || c == '\U{3000}'
  }

  /** `string.IsNullOrWhiteSpace` for a non-null string. */
  predicate IsBlank(s: string) {
    forall i :: 0 <= i < |s| ==> IsWhiteSpace(s[i])
  }

  function TooManyMessage(sep: string): string {
    "Too many Solidus '" + sep + "' separators. Only one solidus is allowed."
  }

  /** The name an enumeration value formats to. */
  function KindName(k: SectionKind): string {
    match k
    case Invalid => "Invalid"
    case DateTime => "DateTime"
    case Duration => "Duration"
  }

  function InvalidMessage(first: SectionKind, second: SectionKind): string {
    "Invalid TimeInterval Input: 1=" + KindName(first) + ", 2=" + KindName(second)
  }

  /** A section is a timestamp if the timestamp recogniser accepts it, otherwise a duration if that recogniser does. */
  function SectionOf(s: string, timestamp: TimestampRecogniser, duration: DurationRecogniser): SectionKind {
    if timestamp(s).Some? then SectionKind.DateTime
    else if duration(s).Some? then SectionKind.Duration
    else SectionKind.Invalid
  }

  /** The separator: `/` if the text contains one, `--` otherwise. */
  function SeparatorOf(input: string): string {
    if IndexOf(input, PrimarySolidus).Some? then PrimarySolidus else SecondarySolidus
  }

  /** The `Duration` property after the loop has looked at the first n sections: set by the last section found to be a duration. */
  function DurationAfter(sections: seq<string>, n: nat, timestamp: TimestampRecogniser, duration: DurationRecogniser): Option<TimeSpan>
    requires n <= |sections|
  {
    if n == 0 then None
    else if SectionOf(sections[n - 1], timestamp, duration) == SectionKind.Duration then duration(sections[n - 1])
    else DurationAfter(sections, n - 1, timestamp, duration)
  }

  /** The kind two section kinds give, or None when the pair is rejected. */
  function PairKind(first: SectionKind, second: SectionKind): Option<IsoTimeIntervalKind> {
    match (first, second)
    case (DateTime, DateTime) => Some(IsoTimeIntervalKind.StartEnd)
    case (DateTime, Duration) => Some(IsoTimeIntervalKind.StartDuration)
    case (Duration, DateTime) => Some(IsoTimeIntervalKind.DurationEnd)
    case _ => None
  }

  /** `TryParse(input, out interval)` as a function of the input and the two recognisers. */
  function Classify(input: string, timestamp: TimestampRecogniser, duration: DurationRecogniser): Outcome {
    if IsBlank(input) then Threw(ArgumentNullException(ParamName), None)
    else
      var sep := SeparatorOf(input);
      var sections := Split(input, sep);
      if |sections| > 2 then
        Threw(ArgumentException(TooManyMessage(sep), ParamName),
          Some(IntervalState(input, sections, PrimarySolidus, IsoTimeIntervalKind.Invalid, None, None, None)))
      else if |sections| == 1 then ClassifySingle(input, sections, duration)
      else ClassifyPair(input, sections, timestamp, duration)
  }

  /** One section: a duration, or `false` with the kind left `Invalid`. */
  function ClassifySingle(input: string, sections: seq<string>, duration: DurationRecogniser): Outcome
    requires |sections| == 1
  {
    var ts := duration(sections[0]);
    var kind := if ts.Some? then IsoTimeIntervalKind.Duration else IsoTimeIntervalKind.Invalid;
    Returned(ts.Some?, IntervalState(input, sections, PrimarySolidus, kind, None, None, ts))
  }

  /** The interval as the classification loop leaves it, before a kind is chosen. */
  function LoopState(input: string, sections: seq<string>, timestamp: TimestampRecogniser, duration: DurationRecogniser): IntervalState
    requires |sections| == 2
  {
    IntervalState(input, sections, PrimarySolidus, IsoTimeIntervalKind.Invalid,
      timestamp(sections[0]), timestamp(sections[1]), DurationAfter(sections, 2, timestamp, duration))
  }

  /** Two sections: the kinds of both decide the interval kind, or the pair is rejected with the loop's state kept. */
  function ClassifyPair(input: string, sections: seq<string>, timestamp: TimestampRecogniser, duration: DurationRecogniser): Outcome
    requires |sections| == 2
  {
    var first := SectionOf(sections[0], timestamp, duration);
    var second := SectionOf(sections[1], timestamp, duration);
    var st := LoopState(input, sections, timestamp, duration);
    match PairKind(first, second)
    case None => Threw(ArgumentException(InvalidMessage(first, second), ParamName), Some(st))
    case Some(kind) => Returned(true, st.(kind := kind))
  }

  /** An `IsoTimeInterval` object. */
  class IsoTimeInterval {
    var input: string
    var sections: seq<string>
    var solidus: string
    var kind: IsoTimeIntervalKind
    var start: Option<DateTimeOffset>
    var end: Option<DateTimeOffset>
    var duration: Option<TimeSpan>

    /** `new IsoTimeInterval() { Input = input }`; `Sections` is assigned straight after. */
    constructor (input: string)
      ensures State() == IntervalState(input, [], PrimarySolidus, IsoTimeIntervalKind.Invalid, None, None, None)
    {
      this.input := input;
      sections := [];
      solidus := PrimarySolidus;
      kind := IsoTimeIntervalKind.Invalid;
      start, end, duration := None, None, None;
    }

    function State(): IntervalState
      reads this
    {
      IntervalState(input, sections, solidus, kind, start, end, duration)
    }

    /**
      `TryParse(input, out interval)`. `previous` is what the caller's
      variable holds before the call. A thrown exception is returned in
      `exception`; `interval` is then the object assigned to the `out`
      parameter before the throw, or `previous` when the blank check throws
      before anything is assigned.
    */
    static method TryParse(input: string, timestamp: TimestampRecogniser, recogniseDuration: DurationRecogniser, previous: IsoTimeInterval?)
      returns (result: bool, interval: IsoTimeInterval?, exception: Option<Exception>)
      ensures match Classify(input, timestamp, recogniseDuration)
        case Threw(e, None) => exception == Some(e) && interval == previous
        case Threw(e, Some(st)) => exception == Some(e) && interval != null && fresh(interval) && interval.State() == st
        case Returned(r, st) => exception.None? && result == r && interval != null && fresh(interval) && interval.State() == st
    {
      result, interval, exception := false, previous, None;
      if IsBlank(input) {
        exception := Some(ArgumentNullException(ParamName));
        return;
      }
      var sep := PrimarySolidus;
      if IndexOf(input, sep).None? {
        sep := SecondarySolidus;
      }
      var it := new IsoTimeInterval(input);
      interval := it;
      it.sections := Split(input, sep);
      if |it.sections| > 2 {
        exception := Some(ArgumentException(TooManyMessage(sep), ParamName));
        return;
      }
      if |it.sections| == 1 {
        // One section means the text has no `/`, so this split at `--` is the one just made.
        SlashGivesTwoSections(input);
        sep := SecondarySolidus;
        it.sections := Split(input, sep);
        if |it.sections| > 2 {
          assert false;
        } else if |it.sections| == 2 {
          assert false;
        }
      }
      if |it.sections| == 1 {
        result := it.ReadSingle(recogniseDuration);
      } else {
        exception := it.ReadPair(timestamp, recogniseDuration);
        if exception.Some? {
          return;
        }
        result := true;
      }
    }

    /** The properties a new interval has before its sections are read. */
    predicate Unread()
      reads this
    {
      solidus == PrimarySolidus && kind == IsoTimeIntervalKind.Invalid && start.None? && end.None? && duration.None?
    }

    /** The one-section branch of `TryParse`. */
    method ReadSingle(recogniseDuration: DurationRecogniser) returns (result: bool)
      requires |sections| == 1 && Unread()
      modifies this
      ensures Returned(result, State()) == ClassifySingle(old(input), old(sections), recogniseDuration)
    {
      result := false;
      var ts := recogniseDuration(sections[0]);
      if ts.Some? {
        kind := IsoTimeIntervalKind.Duration;
        duration := ts;
        result := true;
      }
    }

    /** The two-section branch of `TryParse`: the classification loop, then the kind mapping. */
    method ReadPair(timestamp: TimestampRecogniser, recogniseDuration: DurationRecogniser) returns (exception: Option<Exception>)
      requires |sections| == 2 && Unread()
      modifies this
      ensures match ClassifyPair(old(input), old(sections), timestamp, recogniseDuration)
        case Threw(e, st) => exception == Some(e) && st == Some(State())
        case Returned(_, st) => exception.None? && State() == st
    {
      exception := None;
      var sectionKinds := new SectionKind[2](_ => SectionKind.Invalid);
      for index := 0 to 2
        invariant input == old(input) && sections == old(sections)
        invariant solidus == PrimarySolidus && kind == IsoTimeIntervalKind.Invalid
        invariant start == (if index > 0 then timestamp(sections[0]) else None)
        invariant end == (if index > 1 then timestamp(sections[1]) else None)
        invariant duration == DurationAfter(sections, index, timestamp, recogniseDuration)
        invariant forall j :: 0 <= j < index ==> sectionKinds[j] == SectionOf(sections[j], timestamp, recogniseDuration)
        invariant forall j :: index <= j < 2 ==> sectionKinds[j] == SectionKind.Invalid
      {
        var dto := timestamp(sections[index]);
        if dto.Some? {
          sectionKinds[index] := SectionKind.DateTime;
          if index == 0 {
            start := dto;
          } else if index == 1 {
            end := dto;
          }
        } else {
          var ts := recogniseDuration(sections[index]);
          if ts.Some? {
            sectionKinds[index] := SectionKind.Duration;
            duration := ts;
          }
        }
      }
      if sectionKinds[0] == SectionKind.DateTime && sectionKinds[1] == SectionKind.DateTime {
        kind := IsoTimeIntervalKind.StartEnd;
      } else if sectionKinds[0] == SectionKind.DateTime && sectionKinds[1] == SectionKind.Duration {
        kind := IsoTimeIntervalKind.StartDuration;
      } else if sectionKinds[0] == SectionKind.Duration && sectionKinds[1] == SectionKind.DateTime {
        kind := IsoTimeIntervalKind.DurationEnd;
      } else {
        exception := Some(ArgumentException(InvalidMessage(sectionKinds[0], sectionKinds[1]), ParamName));
      }
    }
  }

  // ---- Lemmas ------------------------------------------------------------

  /** A text containing `/` splits at `/` into at least two sections. */
  lemma SlashGivesTwoSections(input: string)
    ensures IndexOf(input, PrimarySolidus).Some? ==> |Split(input, PrimarySolidus)| >= 2
  {
  }

  /** Blank text, and only blank text, throws `ArgumentNullException`. */
  lemma BlankThrows(input: string, timestamp: TimestampRecogniser, duration: DurationRecogniser)
    ensures Classify(input, timestamp, duration) == Threw(ArgumentNullException(ParamName), None) <==> IsBlank(input)
  {
  }

  /** The separator is `/` exactly when the text contains `/`. */
  lemma SeparatorChoice(input: string)
    ensures SeparatorOf(input) == PrimarySolidus <==> Contains(input, PrimarySolidus)
    ensures SeparatorOf(input) == SecondarySolidus <==> !Contains(input, PrimarySolidus)
  {
  }

  /**
    Non-blank text throws the "Too many Solidus" exception exactly when the
    separator occurs a second time after its first occurrence; the caller's
    variable then holds an interval with the input and all its sections.
  */
  lemma TooManySeparators(input: string, timestamp: TimestampRecogniser, duration: DurationRecogniser)
    requires !IsBlank(input)
    ensures var sep := SeparatorOf(input);
      Classify(input, timestamp, duration)
        == Threw(ArgumentException(TooManyMessage(sep), ParamName),
             Some(IntervalState(input, Split(input, sep), PrimarySolidus, IsoTimeIntervalKind.Invalid, None, None, None)))
      <==> IndexOf(input, sep).Some? && Contains(input[IndexOf(input, sep).value + |sep|..], sep)
  {
    var sep := SeparatorOf(input);
    SplitMoreThanTwo(input, sep);
    assert TooManyMessage(sep)[0] == 'T';
    var sections := Split(input, sep);
    if |sections| == 2 {
      var first := SectionOf(sections[0], timestamp, duration);
      var second := SectionOf(sections[1], timestamp, duration);
      assert InvalidMessage(first, second)[0] == 'I';
    }
  }

  /**
    Text with neither `/` nor `--` is one section, and the call returns
    `true` with kind `Duration` exactly when the duration recogniser accepts
    the whole text; otherwise it returns `false` with kind `Invalid`. A
    timestamp alone is never accepted.
  */
  lemma SingleSection(input: string, timestamp: TimestampRecogniser, duration: DurationRecogniser)
    requires !IsBlank(input) && !Contains(input, PrimarySolidus) && !Contains(input, SecondarySolidus)
    ensures Classify(input, timestamp, duration) == Returned(duration(input).Some?,
      IntervalState(input, [input], PrimarySolidus,
        if duration(input).Some? then IsoTimeIntervalKind.Duration else IsoTimeIntervalKind.Invalid,
        None, None, duration(input)))
  {
    SplitSingle(input, SecondarySolidus);
  }

  /** Two sections are the text before and after the separator, and the pair decides the outcome. */
  lemma TwoSections(input: string, timestamp: TimestampRecogniser, duration: DurationRecogniser)
    requires !IsBlank(input) && |Split(input, SeparatorOf(input))| == 2
    ensures var sep := SeparatorOf(input);
      var a, b := Split(input, sep)[0], Split(input, sep)[1];
      && input == a + sep + b
      && Classify(input, timestamp, duration) == ClassifyPair(input, [a, b], timestamp, duration)
  {
    var sep := SeparatorOf(input);
    SplitTwo(input, sep);
    var sections := Split(input, sep);
    assert sections == [sections[0], sections[1]];
  }

  /** Both sections timestamps: `StartEnd`, with `Start` and `End` set and no `Duration`. */
  lemma PairStartEnd(input: string, a: string, b: string, timestamp: TimestampRecogniser, duration: DurationRecogniser)
    ensures timestamp(a).Some? && timestamp(b).Some? <==>
      ClassifyPair(input, [a, b], timestamp, duration)
        == Returned(true, IntervalState(input, [a, b], PrimarySolidus, IsoTimeIntervalKind.StartEnd, timestamp(a), timestamp(b), None))
  {
    DurationOfPair(a, b, timestamp, duration);
  }

  /** A timestamp, then a section that is only a duration: `StartDuration`. */
  lemma PairStartDuration(input: string, a: string, b: string, timestamp: TimestampRecogniser, duration: DurationRecogniser)
    ensures timestamp(a).Some? && timestamp(b).None? && duration(b).Some? <==>
      ClassifyPair(input, [a, b], timestamp, duration)
        == Returned(true, IntervalState(input, [a, b], PrimarySolidus, IsoTimeIntervalKind.StartDuration, timestamp(a), None, duration(b)))
  {
    DurationOfPair(a, b, timestamp, duration);
  }

  /** A section that is only a duration, then a timestamp: `DurationEnd`. */
  lemma PairDurationEnd(input: string, a: string, b: string, timestamp: TimestampRecogniser, duration: DurationRecogniser)
    ensures timestamp(a).None? && duration(a).Some? && timestamp(b).Some? <==>
      ClassifyPair(input, [a, b], timestamp, duration)
        == Returned(true, IntervalState(input, [a, b], PrimarySolidus, IsoTimeIntervalKind.DurationEnd, None, timestamp(b), duration(a)))
  {
    DurationOfPair(a, b, timestamp, duration);
  }

  /**
    Every other pair (two durations, or a section neither recogniser
    accepts, such as an empty one) throws `ArgumentException` naming both
    section kinds, leaving the caller's variable with the start, end and
    duration the loop set; a pair that does not throw returns `true`.
  */
  lemma PairRejected(input: string, a: string, b: string, timestamp: TimestampRecogniser, duration: DurationRecogniser)
    ensures var c := ClassifyPair(input, [a, b], timestamp, duration);
      && (c.Threw? <==> !(timestamp(a).Some? && (timestamp(b).Some? || duration(b).Some?)) && !(duration(a).Some? && timestamp(b).Some?))
      && (c.Threw? ==> c.exception == ArgumentException(
            InvalidMessage(SectionOf(a, timestamp, duration), SectionOf(b, timestamp, duration)), ParamName))
      && (c.Threw? ==> c.partial == Some(LoopState(input, [a, b], timestamp, duration)))
      && (c.Returned? ==> c.result)
  {
  }

  /**
    Whatever it returns, `Solidus` is `/`, the kind is never `DateTime`,
    `Start` or `End`, the result is `true` exactly when the kind is not
    `Invalid`, and the sections joined with the separator are the input.
  */
  lemma ReturnedShapes(input: string, timestamp: TimestampRecogniser, duration: DurationRecogniser)
    requires Classify(input, timestamp, duration).Returned?
    ensures var st := Classify(input, timestamp, duration).interval;
      && st.solidus == PrimarySolidus
      && st.kind != IsoTimeIntervalKind.DateTime && st.kind != IsoTimeIntervalKind.Start && st.kind != IsoTimeIntervalKind.End
      && (Classify(input, timestamp, duration).result <==> st.kind != IsoTimeIntervalKind.Invalid)
      && st.input == input && Join(st.sections, SeparatorOf(input)) == input
  {
    var sep := SeparatorOf(input);
    var sections := Split(input, sep);
    JoinSplit(input, sep);
    if |sections| == 2 {
      PairShape(input, sections, timestamp, duration);
    } else {
      assert Classify(input, timestamp, duration) == ClassifySingle(input, sections, duration);
    }
  }

  /** A pair that returns keeps the input and sections, returns `true` and has one of the three pair kinds. */
  lemma PairShape(input: string, sections: seq<string>, timestamp: TimestampRecogniser, duration: DurationRecogniser)
    requires |sections| == 2
    ensures var c := ClassifyPair(input, sections, timestamp, duration);
      c.Returned? ==>
        && c.result && c.interval.solidus == PrimarySolidus && c.interval.input == input && c.interval.sections == sections
        && (c.interval.kind == IsoTimeIntervalKind.StartEnd || c.interval.kind == IsoTimeIntervalKind.StartDuration
            || c.interval.kind == IsoTimeIntervalKind.DurationEnd)
  {
  }

  /** The `Duration` property after both sections: the second section's duration, else the first's. */
  lemma DurationOfPair(a: string, b: string, timestamp: TimestampRecogniser, duration: DurationRecogniser)
    ensures DurationAfter([a, b], 2, timestamp, duration)
      == if SectionOf(b, timestamp, duration) == SectionKind.Duration then duration(b)
         else if SectionOf(a, timestamp, duration) == SectionKind.Duration then duration(a)
         else None
  {
    assert [a, b][1] == b && [a, b][0] == a;
    assert DurationAfter([a, b], 0, timestamp, duration) == None;
    assert DurationAfter([a, b], 1, timestamp, duration)
      == if SectionOf(a, timestamp, duration) == SectionKind.Duration then duration(a) else None;
  }

  /** Two timestamps around a `/`: the call returns `true` with kind `StartEnd`. */
  lemma StartEndInput(a: string, b: string, timestamp: TimestampRecogniser, duration: DurationRecogniser)
    requires '/' !in a && '/' !in b && |a| > 0 && !IsWhiteSpace(a[0])
    requires timestamp(a).Some? && timestamp(b).Some?
    ensures Classify(a + PrimarySolidus + b, timestamp, duration)
      == Returned(true, IntervalState(a + PrimarySolidus + b, [a, b], PrimarySolidus, IsoTimeIntervalKind.StartEnd, timestamp(a), timestamp(b), None))
  {
    PairAround(a, b, timestamp, duration);
    PairStartEnd(a + PrimarySolidus + b, a, b, timestamp, duration);
  }

  /** A timestamp and a duration around a `/`: `StartDuration`. */
  lemma StartDurationInput(a: string, b: string, timestamp: TimestampRecogniser, duration: DurationRecogniser)
    requires '/' !in a && '/' !in b && |a| > 0 && !IsWhiteSpace(a[0])
    requires timestamp(a).Some? && timestamp(b).None? && duration(b).Some?
    ensures Classify(a + PrimarySolidus + b, timestamp, duration)
      == Returned(true, IntervalState(a + PrimarySolidus + b, [a, b], PrimarySolidus, IsoTimeIntervalKind.StartDuration, timestamp(a), None, duration(b)))
  {
    PairAround(a, b, timestamp, duration);
    PairStartDuration(a + PrimarySolidus + b, a, b, timestamp, duration);
  }

  /** A duration and a timestamp around a `/`: `DurationEnd`. */
  lemma DurationEndInput(a: string, b: string, timestamp: TimestampRecogniser, duration: DurationRecogniser)
    requires '/' !in a && '/' !in b && |a| > 0 && !IsWhiteSpace(a[0])
    requires timestamp(a).None? && duration(a).Some? && timestamp(b).Some?
    ensures Classify(a + PrimarySolidus + b, timestamp, duration)
      == Returned(true, IntervalState(a + PrimarySolidus + b, [a, b], PrimarySolidus, IsoTimeIntervalKind.DurationEnd, None, timestamp(b), duration(a)))
  {
    PairAround(a, b, timestamp, duration);
    PairDurationEnd(a + PrimarySolidus + b, a, b, timestamp, duration);
  }

  /** Text a/b with no other `/` is classified by the pair (a, b). */
  lemma PairAround(a: string, b: string, timestamp: TimestampRecogniser, duration: DurationRecogniser)
    requires '/' !in a && '/' !in b && |a| > 0 && !IsWhiteSpace(a[0])
    ensures Classify(a + PrimarySolidus + b, timestamp, duration) == ClassifyPair(a + PrimarySolidus + b, [a, b], timestamp, duration)
  {
    var s := a + PrimarySolidus + b;
    MissingFirstChar(a, PrimarySolidus);
    MissingFirstChar(b, PrimarySolidus);
    assert a + PrimarySolidus[..0] == a;
    SplitOfTwoParts(a, b, PrimarySolidus);
    assert OccursAt(s, PrimarySolidus, |a|) by {
      assert s[|a|..|a| + 1] == PrimarySolidus;
    }
    assert s[0] == a[0];
  }

  /** The start/end test input, given a timestamp recogniser that accepts both parts. */
  lemma TestStartEnd(timestamp: TimestampRecogniser, duration: DurationRecogniser)
    requires timestamp("2007-03-01T13:00:00Z").Some? && timestamp("2008-05-11T15:30:00Z").Some?
    ensures Classify("2007-03-01T13:00:00Z" + "/" + "2008-05-11T15:30:00Z", timestamp, duration).Returned?
    ensures Classify("2007-03-01T13:00:00Z" + "/" + "2008-05-11T15:30:00Z", timestamp, duration).result
  {
    StartEndInput("2007-03-01T13:00:00Z", "2008-05-11T15:30:00Z", timestamp, duration);
  }

  /** The start/duration test input. */
  lemma TestStartDuration(timestamp: TimestampRecogniser, duration: DurationRecogniser)
    requires timestamp("2007-03-01T13:00:00Z").Some?
    requires timestamp("P1Y2M10DT2H30M").None? && duration("P1Y2M10DT2H30M").Some?
    ensures Classify("2007-03-01T13:00:00Z" + "/" + "P1Y2M10DT2H30M", timestamp, duration).Returned?
    ensures Classify("2007-03-01T13:00:00Z" + "/" + "P1Y2M10DT2H30M", timestamp, duration).result
  {
    StartDurationInput("2007-03-01T13:00:00Z", "P1Y2M10DT2H30M", timestamp, duration);
  }

  /** The duration/end test input. */
  lemma TestDurationEnd(timestamp: TimestampRecogniser, duration: DurationRecogniser)
    requires timestamp("2008-05-11T15:30:00Z").Some?
    requires timestamp("P1Y2M10DT2H30M").None? && duration("P1Y2M10DT2H30M").Some?
    ensures Classify("P1Y2M10DT2H30M" + "/" + "2008-05-11T15:30:00Z", timestamp, duration).Returned?
    ensures Classify("P1Y2M10DT2H30M" + "/" + "2008-05-11T15:30:00Z", timestamp, duration).result
  {
    DurationEndInput("P1Y2M10DT2H30M", "2008-05-11T15:30:00Z", timestamp, duration);
  }

  /** The duration-only test input. */
  lemma TestDurationOnly(timestamp: TimestampRecogniser, duration: DurationRecogniser)
    requires duration("P1Y2M10DT2H30M").Some?
    ensures Classify("P1Y2M10DT2H30M", timestamp, duration).Returned?
    ensures Classify("P1Y2M10DT2H30M", timestamp, duration).result
  {
    MissingFirstChar("P1Y2M10DT2H30M", PrimarySolidus);
    MissingFirstChar("P1Y2M10DT2H30M", SecondarySolidus);
    assert !IsWhiteSpace("P1Y2M10DT2H30M"[0]);
    SingleSection("P1Y2M10DT2H30M", timestamp, duration);
  }
}

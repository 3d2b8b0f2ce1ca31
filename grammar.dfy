/**
  The duration grammar of IsoDuration.IsoRegex:

    ^(-)?P(?:([0-9,.]*)Y)?(?:([0-9,.]*)M)?(?:([0-9,.]*)W)?(?:([0-9,.]*)D)?
         (?:T(?:([0-9,.]*)H)?(?:([0-9,.]*)M)?(?:([0-9,.]*)S)?)?$

  `Render` spells out the language of the pattern (which strings a choice of
  groups produces); `Match` is a left-to-right scanner playing the role of
  `Regex.Match`. `MatchIff` proves that the scanner accepts a string with
  given groups exactly when those groups render to that string.
*/
module DurationGrammar {
  import opened Wrappers

  /** A character of the class [0-9,.]. */
  predicate IsNumberChar(c: char) { '0' <= c <= '9' || c == ',' || c == '.' }

  predicate IsToken(t: string) { forall i :: 0 <= i < |t| ==> IsNumberChar(t[i]) }

  const DateDesignators: string := "YMWD"
  const TimeDesignators: string := "HMS"

  /**
    What a successful match captures: the sign group, the four date groups
    (None when the group did not take part), whether the `T` part was
    present, and the three time groups.
  */
  datatype Groups = Groups(negative: bool, date: seq<Option<string>>, hasTime: bool, time: seq<Option<string>>)

  predicate TokensOk(gs: seq<Option<string>>) {
    forall i :: 0 <= i < |gs| ==> gs[i].Some? ==> IsToken(gs[i].value)
  }

  predicate WellFormed(g: Groups) {
    && |g.date| == 4 && |g.time| == 3
    && TokensOk(g.date) && TokensOk(g.time)
    && (!g.hasTime ==> forall i :: 0 <= i < 3 ==> g.time[i].None?)
  }

  /** The text of one optional group `(?:([0-9,.]*)L)?`. */
  function GroupText(o: Option<string>, letter: char): string {
    match o
    case None => ""
    case Some(t) => t + [letter]
  }

  function RenderGroups(gs: seq<Option<string>>, letters: string): string
    requires |gs| == |letters|
  {
    if gs == [] then "" else GroupText(gs[0], letters[0]) + RenderGroups(gs[1..], letters[1..])
  }

  /** The string the pattern matches with exactly these groups. */
  function Render(g: Groups): string
    requires WellFormed(g)
  {
    (if g.negative then "-" else "") + "P" + RenderGroups(g.date, DateDesignators)
      + (if g.hasTime then "T" + RenderGroups(g.time, TimeDesignators) else "")
  }

  // ---- The scanner --------------------------------------------------------

  /** The longest prefix of s made of number characters, and the rest. */
  function SplitToken(s: string): (r: (string, string))
    ensures r.0 + r.1 == s && IsToken(r.0)
    ensures r.1 == "" || !IsNumberChar(r.1[0])
  {
    if s == [] || !IsNumberChar(s[0]) then ("", s)
    else
      var (t, rest) := SplitToken(s[1..]);
      assert [s[0]] + t + rest == s;
      ([s[0]] + t, rest)
  }

  /** The first character of s that is not a number character, if any. */
  function FirstStop(s: string): Option<char> {
    var (_, rest) := SplitToken(s);
    if rest == "" then None else Some(rest[0])
  }

  /** One optional group: a token followed by the designator, or nothing. */
  function ReadGroup(s: string, letter: char): (Option<string>, string) {
    var (t, rest) := SplitToken(s);
    if rest != "" && rest[0] == letter then (Some(t), rest[1..]) else (None, s)
  }

  function ScanGroups(s: string, letters: string): (seq<Option<string>>, string)
    decreases |letters|
  {
    if letters == [] then ([], s)
    else
      var (o, s') := ReadGroup(s, letters[0]);
      var (os, rest) := ScanGroups(s', letters[1..]);
      ([o] + os, rest)
  }

  /** `IsoRegex.Match(s)`: the captured groups, or None when it does not match. */
  function Match(s: string): Option<Groups> {
    var negative := |s| > 0 && s[0] == '-';
    var s1 := if negative then s[1..] else s;
    if s1 == "" || s1[0] != 'P' then None else MatchAfterP(negative, s1[1..])
  }

  /** The date groups, then the optional time part, then the end of the input. */
  function MatchAfterP(negative: bool, body: string): Option<Groups> {
    var date := ScanGroups(body, DateDesignators);
    match MatchTimePart(date.1)
    case None => None
    case Some(t) => Some(Groups(negative, date.0, t.0, t.1))
  }

  /** `(?:T(?:...H)?(?:...M)?(?:...S)?)?$` */
  function MatchTimePart(s: string): Option<(bool, seq<Option<string>>)> {
    if s == "" then Some((false, [None, None, None]))
    else if s[0] != 'T' then None
    else
      var time := ScanGroups(s[1..], TimeDesignators);
      if time.1 == "" then Some((true, time.0)) else None
  }

  /** `Group.Value` of a captured group: the empty string when it did not take part. */
  function GroupValue(o: Option<string>): (t: string)
    ensures o.Some? ==> t == o.value
    ensures o.None? ==> t == ""
  {
    match o
    case None => ""
    case Some(t) => t
  }

  /** The seven group values in the order Y, M, W, D, H, M, S. */
  function Tokens(g: Groups): (ts: seq<string>)
    ensures |ts| == 7
    ensures WellFormed(g) ==> forall i :: 0 <= i < 4 ==> ts[i] == GroupValue(g.date[i])
    ensures WellFormed(g) ==> forall i :: 4 <= i < 7 ==> ts[i] == GroupValue(g.time[i - 4])
    ensures WellFormed(g) ==> forall i :: 0 <= i < 7 ==> IsToken(ts[i])
  {
    seq(7, i requires 0 <= i < 7 =>
      if i < 4 then (if i < |g.date| then GroupValue(g.date[i]) else "")
      else (if i - 4 < |g.time| then GroupValue(g.time[i - 4]) else ""))
  }

  // ---- Lemmas ------------------------------------------------------------

  lemma RenderFour(gs: seq<Option<string>>, letters: string)
    requires |gs| == 4 && |letters| == 4
    ensures RenderGroups(gs, letters) == GroupText(gs[0], letters[0]) + GroupText(gs[1], letters[1])
      + GroupText(gs[2], letters[2]) + GroupText(gs[3], letters[3])
  {
    var t3 := RenderGroups(gs[3..], letters[3..]);
    assert gs[3..][1..] == [] && letters[3..][1..] == [];
    assert RenderGroups(gs[3..][1..], letters[3..][1..]) == "";
    assert gs[3..][0] == gs[3] && letters[3..][0] == letters[3];
    assert t3 == GroupText(gs[3], letters[3]) + "";
    assert gs[2..][1..] == gs[3..] && letters[2..][1..] == letters[3..];
    var t2 := RenderGroups(gs[2..], letters[2..]);
    assert t2 == GroupText(gs[2], letters[2]) + t3;
    assert gs[1..][1..] == gs[2..] && letters[1..][1..] == letters[2..];
    var t1 := RenderGroups(gs[1..], letters[1..]);
    assert t1 == GroupText(gs[1], letters[1]) + t2;
  }

  lemma RenderThree(gs: seq<Option<string>>, letters: string)
    requires |gs| == 3 && |letters| == 3
    ensures RenderGroups(gs, letters) == GroupText(gs[0], letters[0]) + GroupText(gs[1], letters[1])
      + GroupText(gs[2], letters[2])
  {
    var t2 := RenderGroups(gs[2..], letters[2..]);
    assert gs[2..][1..] == [] && letters[2..][1..] == [];
    assert RenderGroups(gs[2..][1..], letters[2..][1..]) == "";
    assert gs[2..][0] == gs[2] && letters[2..][0] == letters[2];
    assert t2 == GroupText(gs[2], letters[2]) + "";
    assert gs[1..][1..] == gs[2..] && letters[1..][1..] == letters[2..];
    var t1 := RenderGroups(gs[1..], letters[1..]);
    assert t1 == GroupText(gs[1], letters[1]) + t2;
  }

  /** The split of a token followed by a non-number character is unique. */
  lemma {:induction false} SplitTokenOf(t: string, rest: string)
    requires IsToken(t) && (rest == "" || !IsNumberChar(rest[0]))
    ensures SplitToken(t + rest) == (t, rest)
  {
    if t != [] {
      assert (t + rest)[1..] == t[1..] + rest;
      SplitTokenOf(t[1..], rest);
      assert [t[0]] + t[1..] == t;
    } else {
      assert t + rest == rest;
    }
  }

  lemma GroupFirstStop(t: string, letter: char, rest: string)
    requires IsToken(t) && !IsNumberChar(letter)
    ensures FirstStop(GroupText(Some(t), letter) + rest) == Some(letter)
  {
    assert GroupText(Some(t), letter) + rest == t + ([letter] + rest);
    SplitTokenOf(t, [letter] + rest);
  }

  /** Reading a group from its own text, followed by text that does not stop at the same letter. */
  lemma ReadGroupText(o: Option<string>, letter: char, rest: string)
    requires o.Some? ==> IsToken(o.value)
    requires !IsNumberChar(letter)
    requires FirstStop(rest) != Some(letter)
    ensures ReadGroup(GroupText(o, letter) + rest, letter) == (o, rest)
  {
    if o.Some? {
      assert GroupText(o, letter) + rest == o.value + ([letter] + rest);
      SplitTokenOf(o.value, [letter] + rest);
    } else {
      assert GroupText(o, letter) + rest == rest;
    }
  }

  predicate NoNumberChars(letters: string) {
    forall i :: 0 <= i < |letters| ==> !IsNumberChar(letters[i])
  }

  predicate Distinct(letters: string) {
    forall i, j :: 0 <= i < j < |letters| ==> letters[i] != letters[j]
  }

  /** Rendered groups stop at one of their own letters, or wherever the rest stops. */
  lemma {:induction false} RenderFirstStop(gs: seq<Option<string>>, letters: string, rest: string)
    requires |gs| == |letters| && TokensOk(gs) && NoNumberChars(letters)
    ensures FirstStop(RenderGroups(gs, letters) + rest) == FirstStop(rest)
         || (FirstStop(RenderGroups(gs, letters) + rest).Some?
             && FirstStop(RenderGroups(gs, letters) + rest).value in letters)
  {
    if gs != [] {
      var tail := RenderGroups(gs[1..], letters[1..]) + rest;
      assert RenderGroups(gs, letters) + rest == GroupText(gs[0], letters[0]) + tail;
      if gs[0].Some? {
        GroupFirstStop(gs[0].value, letters[0], tail);
      } else {
        assert GroupText(gs[0], letters[0]) + tail == tail;
        RenderFirstStop(gs[1..], letters[1..], rest);
      }
    } else {
      assert RenderGroups(gs, letters) + rest == rest;
    }
  }

  /** The scanner reads back exactly the groups that were rendered. */
  lemma {:induction false} ScanRender(gs: seq<Option<string>>, letters: string, rest: string)
    requires |gs| == |letters| && TokensOk(gs) && NoNumberChars(letters) && Distinct(letters)
    requires FirstStop(rest).Some? ==> FirstStop(rest).value !in letters
    ensures ScanGroups(RenderGroups(gs, letters) + rest, letters) == (gs, rest)
  {
    if gs != [] {
      var tail := RenderGroups(gs[1..], letters[1..]) + rest;
      assert RenderGroups(gs, letters) + rest == GroupText(gs[0], letters[0]) + tail;
      RenderFirstStop(gs[1..], letters[1..], rest);
      assert FirstStop(tail) != Some(letters[0]);
      ReadGroupText(gs[0], letters[0], tail);
      ScanRender(gs[1..], letters[1..], rest);
      assert [gs[0]] + gs[1..] == gs;
    } else {
      assert RenderGroups(gs, letters) + rest == rest;
    }
  }

  /** Whatever the scanner reads, it reads from text that renders it. */
  lemma {:induction false} ScanSound(s: string, letters: string)
    ensures var (gs, rest) := ScanGroups(s, letters);
      |gs| == |letters| && TokensOk(gs) && RenderGroups(gs, letters) + rest == s
    decreases |letters|
  {
    if letters != [] {
      var (o, s') := ReadGroup(s, letters[0]);
      ReadGroupSound(s, letters[0]);
      ScanSound(s', letters[1..]);
      var (os, rest) := ScanGroups(s', letters[1..]);
      assert ScanGroups(s, letters) == ([o] + os, rest);
      TokensOkCons(o, os);
      var gs := [o] + os;
      assert gs[0] == o && gs[1..] == os;
      assert RenderGroups(gs, letters) == GroupText(o, letters[0]) + RenderGroups(os, letters[1..]);
      assert RenderGroups(gs, letters) + rest == GroupText(o, letters[0]) + (RenderGroups(os, letters[1..]) + rest);
    }
  }

  /** One group read from s: a token, and s is its text followed by the rest. */
  lemma ReadGroupSound(s: string, letter: char)
    ensures var (o, s') := ReadGroup(s, letter);
      (o.Some? ==> IsToken(o.value)) && GroupText(o, letter) + s' == s
  {
    var (t, rest) := SplitToken(s);
    if rest != "" && rest[0] == letter {
      assert t + [letter] + rest[1..] == t + rest;
    }
  }

  lemma TokensOkCons(o: Option<string>, os: seq<Option<string>>)
    requires (o.Some? ==> IsToken(o.value)) && TokensOk(os)
    ensures TokensOk([o] + os)
  {
    forall i | 0 <= i < |[o] + os| && ([o] + os)[i].Some?
      ensures IsToken(([o] + os)[i].value)
    {
      if i > 0 { assert ([o] + os)[i] == os[i - 1]; }
    }
  }

  /** The text after the sign and the `P`. */
  function Body(g: Groups): string
    requires WellFormed(g)
  {
    RenderGroups(g.date, DateDesignators) + (if g.hasTime then "T" + RenderGroups(g.time, TimeDesignators) else "")
  }

  lemma DesignatorsOk()
    ensures NoNumberChars(DateDesignators) && Distinct(DateDesignators)
    ensures NoNumberChars(TimeDesignators) && Distinct(TimeDesignators)
  {}

  function TimeText(g: Groups): string
    requires WellFormed(g)
  {
    if g.hasTime then "T" + RenderGroups(g.time, TimeDesignators) else ""
  }

  lemma ScanBody(g: Groups)
    requires WellFormed(g)
    ensures ScanGroups(Body(g), DateDesignators) == (g.date, TimeText(g))
  {
    DesignatorsOk();
    var timeText := TimeText(g);
    SplitTokenOf("", timeText);
    assert "" + timeText == timeText;
    ScanRender(g.date, DateDesignators, timeText);
  }

  lemma MatchTimeText(g: Groups)
    requires WellFormed(g)
    ensures MatchTimePart(TimeText(g)) == Some((g.hasTime, g.time))
  {
    if g.hasTime {
      DesignatorsOk();
      SplitTokenOf("", "");
      var t := RenderGroups(g.time, TimeDesignators);
      assert t + "" == t;
      ScanRender(g.time, TimeDesignators, "");
      assert TimeText(g)[1..] == t;
    } else {
      assert g.time == [None, None, None];
    }
  }

  lemma MatchRender(g: Groups)
    requires WellFormed(g)
    ensures Match(Render(g)) == Some(g)
  {
    RenderParts(g);
    MatchPrefixed(g.negative, Body(g));
    ScanBody(g);
    MatchTimeText(g);
  }

  function SignText(negative: bool): string {
    if negative then "-" else ""
  }

  /** Match reads the sign and the `P` and hands the rest to the group scanner. */
  lemma MatchPrefixed(negative: bool, body: string)
    ensures Match(SignText(negative) + "P" + body) == MatchAfterP(negative, body)
  {
    var s := SignText(negative) + "P" + body;
    if negative {
      assert s[0] == '-' && s[1..] == "P" + body;
    } else {
      assert s == "P" + body;
    }
    assert ("P" + body)[1..] == body;
  }

  lemma MatchTimePartSound(s: string)
    requires MatchTimePart(s).Some?
    ensures var (hasTime, time) := MatchTimePart(s).value;
      |time| == 3 && TokensOk(time)
      && (!hasTime ==> forall i :: 0 <= i < 3 ==> time[i].None?)
      && s == if hasTime then "T" + RenderGroups(time, TimeDesignators) else ""
  {
    if s != "" {
      ScanSound(s[1..], TimeDesignators);
      var time := ScanGroups(s[1..], TimeDesignators);
      assert s == "T" + s[1..];
      assert RenderGroups(time.0, TimeDesignators) + time.1 == RenderGroups(time.0, TimeDesignators);
    }
  }

  lemma MatchAfterPSound(negative: bool, body: string)
    requires MatchAfterP(negative, body).Some?
    ensures var g := MatchAfterP(negative, body).value;
      WellFormed(g) && g.negative == negative && Body(g) == body
  {
    ScanSound(body, DateDesignators);
    var date := ScanGroups(body, DateDesignators);
    MatchTimePartSound(date.1);
  }

  /** Match strips the sign and the `P`, and nothing else. */
  lemma MatchUnfold(s: string) returns (negative: bool, body: string)
    requires Match(s).Some?
    ensures s == SignText(negative) + "P" + body
    ensures Match(s) == MatchAfterP(negative, body)
  {
    negative := |s| > 0 && s[0] == '-';
    var s1 := if negative then s[1..] else s;
    assert s1 != "" && s1[0] == 'P';
    body := s1[1..];
    SplitPrefix(s, negative, s1, body);
    MatchPrefixed(negative, body);
  }

  lemma SplitPrefix(s: string, negative: bool, s1: string, body: string)
    requires negative ==> |s| > 0 && s1 == s[1..] && s[0] == '-'
    requires !negative ==> s1 == s
    requires s1 != "" && s1[0] == 'P' && body == s1[1..]
    ensures s == SignText(negative) + "P" + body
  {
    assert s1 == "P" + body;
    if negative {
      assert s == "-" + s1;
    }
  }

  lemma MatchSound(s: string)
    requires Match(s).Some?
    ensures WellFormed(Match(s).value) && Render(Match(s).value) == s
  {
    var negative, body := MatchUnfold(s);
    MatchAfterPSound(negative, body);
    RenderParts(MatchAfterP(negative, body).value);
  }

  lemma RenderParts(g: Groups)
    requires WellFormed(g)
    ensures Render(g) == SignText(g.negative) + "P" + Body(g)
  {
  }

  /** The scanner accepts s with groups g exactly when g renders to s. */
  lemma MatchIff(s: string, g: Groups)
    ensures Match(s) == Some(g) <==> WellFormed(g) && Render(g) == s
  {
    if Match(s) == Some(g) { MatchSound(s); }
    if WellFormed(g) && Render(g) == s { MatchRender(g); }
  }

  /** A bare `P` is accepted: every group is optional. */
  lemma GrammarAcceptsBareP()
    ensures Match("P") == Some(Groups(false, [None, None, None, None], false, [None, None, None]))
  {
    var g := Groups(false, [None, None, None, None], false, [None, None, None]);
    MatchRender(g);
    assert Render(g) == "P";
  }

  /** A `T` with no time group after it is accepted. */
  lemma GrammarAcceptsBareT()
    ensures Match("PT") == Some(Groups(false, [None, None, None, None], true, [None, None, None]))
  {
    var g := Groups(false, [None, None, None, None], true, [None, None, None]);
    MatchRender(g);
    assert Render(g) == "PT";
  }

  /** A designator with an empty numeric run is accepted, capturing the empty string. */
  lemma GrammarAcceptsEmptyGroup()
    ensures Match("PY") == Some(Groups(false, [Some(""), None, None, None], false, [None, None, None]))
  {
    var g := Groups(false, [Some(""), None, None, None], false, [None, None, None]);
    MatchRender(g);
    assert Render(g) == "PY";
  }

  /** Date designators out of order are rejected. */
  lemma GrammarRejectsDateOutOfOrder()
    ensures Match("P1D1Y") == None
  {
    SplitTokenOf("1", "D1Y");
    assert "1D1Y" == "1" + "D1Y";
    assert ScanGroups("1D1Y", DateDesignators).1 == "1Y";
  }

  /** Time designators out of order are rejected. */
  lemma GrammarRejectsTimeOutOfOrder()
    ensures Match("PT1S1H") == None
  {
    SplitTokenOf("1", "S1H");
    assert "1S1H" == "1" + "S1H";
    SplitTokenOf("", "T1S1H");
    assert "T1S1H" == "" + "T1S1H";
    assert ScanGroups("T1S1H", DateDesignators).1 == "T1S1H";
    assert ScanGroups("1S1H", TimeDesignators).1 == "1H";
  }

  /** Designators are case-sensitive. */
  lemma GrammarRejectsLowerCase()
    ensures Match("P1y") == None
    ensures Match("p1Y") == None
  {
  }

  /** A time designator needs the `T`, and the sign is a single `-`. */
  lemma GrammarRejectsMisplaced()
    ensures Match("P1H") == None
    ensures Match("--P1Y") == None
  {
  }
}

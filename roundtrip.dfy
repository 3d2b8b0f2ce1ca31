/**
  The round-trip law of IsoDuration: formatting a value and parsing the text
  back under the same decimal separator gives the value again, for every
  canonical value.
*/
module DurationRoundTrip {
  import opened Wrappers
  import opened Decimals
  import opened DurationGrammar
  import opened Durations
  import opened DurationParsing

  /** Whether each non-zero field, in order, carries a fraction. */
  function FractionFlags(fs: seq<Dec>): (bs: seq<bool>)
    ensures |bs| <= |fs|
  {
    if fs == [] then []
    else
      var f := fs[|fs| - 1];
      FractionFlags(fs[..|fs| - 1]) + (if IsZero(f) then [] else [f.scale > 0])
  }

  predicate NoAdjacentTrue(bs: seq<bool>) {
    forall i :: 0 < i < |bs| ==> !(bs[i - 1] && bs[i])
  }

  /**
    The values whose formatted text the parser reads back unchanged: zero
    fields are plain 0, every field has the duration's sign, and no two
    consecutive non-zero fields both carry a fraction.
  */
  predicate Canonical(d: Duration) {
    && (forall k :: 0 <= k < 7 ==> IsZero(Field(d, k)) ==> Field(d, k) == Zero)
    && (d.isNegative ==> forall k :: 0 <= k < 7 ==> Field(d, k).mantissa <= 0)
    && (!d.isNegative ==> forall k :: 0 <= k < 7 ==> Field(d, k).mantissa >= 0)
    && NoAdjacentTrue(FractionFlags(Fields(d)))
  }

  /** The group value the formatter writes for a field. */
  function FieldToken(f: Dec, sep: char): string {
    GroupValue(FieldGroup(f, sep))
  }

  function FieldTokens(fs: seq<Dec>, sep: char): (ts: seq<string>)
    ensures |ts| == |fs| && forall k :: 0 <= k < |fs| ==> ts[k] == FieldToken(fs[k], sep)
  {
    seq(|fs|, k requires 0 <= k < |fs| => FieldToken(fs[k], sep))
  }

  lemma FieldTokenParses(f: Dec, sep: char)
    requires IsSeparator(sep) && !IsZero(f)
    ensures FieldToken(f, sep) != ""
    ensures DecimalTryParse(FieldToken(f, sep), sep) == Some(Abs(f))
    ensures HasSeparator(FieldToken(f, sep)) <==> f.scale > 0
  {
    FormatDecRoundTrip(Abs(f), sep);
    FormatDecSeparator(Abs(f), sep);
    var t := FormatDec(Abs(f), sep);
    var other := if sep == ',' then '.' else ',';
    assert other !in t by {
      forall i | 0 <= i < |t| ensures t[i] != other { assert IsDigit(t[i]) || t[i] == sep; }
    }
  }

  /** The formatted non-zero fields are numbers whose separators follow the fraction flags. */
  lemma {:induction false} TokensFollowFlags(fs: seq<Dec>, sep: char)
    requires IsSeparator(sep)
    ensures var ne := NonEmpty(FieldTokens(fs, sep));
      var bs := FractionFlags(fs);
      && |ne| == |bs|
      && (forall i :: 0 <= i < |ne| ==> DecimalTryParse(ne[i], sep).Some? && (HasSeparator(ne[i]) <==> bs[i]))
  {
    if fs != [] {
      var n := |fs| - 1;
      var f := fs[n];
      assert FieldTokens(fs, sep)[..n] == FieldTokens(fs[..n], sep);
      TokensFollowFlags(fs[..n], sep);
      if !IsZero(f) { FieldTokenParses(f, sep); }
    }
  }

  lemma TokensOfFormat(d: Duration, sep: char)
    requires IsSeparator(sep)
    ensures Tokens(GroupsOf(d, sep)) == FieldTokens(Fields(d), sep)
  {
    GroupsOfWellFormed(d, sep);
  }

  /**
    Parsing formatted text gives back the value, for every canonical value
    (`Canonical(d)`) under a `.` or `,` separator. Not every value the parser
    produces is canonical, and other separators do not match the regular
    expression: `RoundTripGap` shows both.
  */
  lemma ParseFormatRoundTrip(d: Duration, sep: char)
    requires IsSeparator(sep) && Canonical(d)
    ensures ParseDuration(Format(d, sep), sep) == TryParseResult(true, Some(d), None)
  {
    var g := GroupsOf(d, sep);
    FormatMatches(d, sep);
    TokensOfFormat(d, sep);
    var toks := Tokens(g);
    var ne := NonEmpty(toks);
    TokensFollowFlags(Fields(d), sep);
    AcceptedIff(ne, sep);
    assert Accepted(ne, sep);
    StepsInvariantHolds(d.isNegative, toks, sep);
    var p := RunSteps(InitialState(d.isNegative), toks, sep);
    forall k | 0 <= k < 7 ensures Field(p.duration, k) == Field(d, k) {
      var f := Field(d, k);
      if IsZero(f) {
        assert toks[k] == "";
      } else {
        FieldTokenParses(f, sep);
      }
    }
    DurationExtensionality(p.duration, d);
  }

  /** Canonical text survives parse-then-format unchanged: the law the test inputs are checked against. */
  lemma FormatParseIdentity(s: string, d: Duration, sep: char)
    requires IsSeparator(sep) && Canonical(d) && Format(d, sep) == s
    ensures ParseDuration(s, sep).success
    ensures Format(ParseDuration(s, sep).result.value, sep) == s
  {
    ParseFormatRoundTrip(d, sep);
  }

  /** With no field carrying a fraction, no flag is set. */
  lemma {:induction false} IntegerFlags(fs: seq<Dec>)
    requires forall i :: 0 <= i < |fs| ==> fs[i].scale == 0
    ensures forall i :: 0 <= i < |FractionFlags(fs)| ==> !FractionFlags(fs)[i]
  {
    if fs != [] {
      IntegerFlags(fs[..|fs| - 1]);
    }
  }

  /** With at most field j carrying a fraction, at most one flag is set. */
  lemma {:induction false} OneFractionFlags(fs: seq<Dec>, j: nat)
    requires forall i :: 0 <= i < |fs| && i != j ==> fs[i].scale == 0
    ensures forall a, b :: 0 <= a < b < |FractionFlags(fs)| ==> !(FractionFlags(fs)[a] && FractionFlags(fs)[b])
  {
    if fs != [] {
      var prefix := fs[..|fs| - 1];
      if j == |fs| - 1 {
        IntegerFlags(prefix);
      } else {
        OneFractionFlags(prefix, j);
      }
    }
  }

  /** A sign-consistent value whose zero fields are plain 0 and with at most one fraction is canonical. */
  lemma OneFractionCanonical(d: Duration, j: nat)
    requires forall k :: 0 <= k < 7 ==> IsZero(Field(d, k)) ==> Field(d, k) == Zero
    requires d.isNegative ==> forall k :: 0 <= k < 7 ==> Field(d, k).mantissa <= 0
    requires !d.isNegative ==> forall k :: 0 <= k < 7 ==> Field(d, k).mantissa >= 0
    requires forall k :: 0 <= k < 7 && k != j ==> Field(d, k).scale == 0
    ensures Canonical(d)
  {
    var fs := Fields(d);
    forall i | 0 <= i < |fs| && i != j
      ensures fs[i].scale == 0
    {
      assert fs[i] == Field(d, i);
    }
    OneFractionFlags(fs, j);
  }
}

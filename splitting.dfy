/**
  Ordinal substring search and `String.Split(new[] { sep }, StringSplitOptions.None)`:
  the text cut at every occurrence of a non-empty separator, scanning left
  to right without overlap, keeping empty pieces.
*/
module Splitting {
  import opened Wrappers

  /** t occurs in s at position i. */
  predicate OccursAt(s: string, t: string, i: nat) {
    i + |t| <= |s| && s[i..i + |t|] == t
  }

  predicate Contains(s: string, t: string) {
    exists i: nat | i <= |s| :: OccursAt(s, t, i)
  }

  /** `s.IndexOf(t)`: the first position at which t occurs. */
  function IndexOf(s: string, t: string): (r: Option<nat>)
    requires |t| > 0
    ensures r.Some? ==> OccursAt(s, t, r.value) && forall j: nat :: j < r.value ==> !OccursAt(s, t, j)
    ensures r.None? ==> !Contains(s, t)
    decreases |s|
  {
    if |s| < |t| then None
    else if s[..|t|] == t then Some(0)
    else
      var r := IndexOf(s[1..], t);
      ShiftOccurrence(s, t);
      if r.None? then None else Some(r.value + 1)
  }

  /** An occurrence in `s[1..]` is an occurrence in s one position later, and s has none at 0 when its prefix differs. */
  lemma ShiftOccurrence(s: string, t: string)
    requires |s| >= |t| > 0 && s[..|t|] != t
    ensures forall j: nat :: OccursAt(s, t, j) ==> j > 0 && OccursAt(s[1..], t, j - 1)
    ensures Contains(s, t) <==> Contains(s[1..], t)
  {
    forall j: nat
      ensures OccursAt(s, t, j) ==> j > 0 && OccursAt(s[1..], t, j - 1)
      ensures j > 0 && OccursAt(s[1..], t, j - 1) ==> OccursAt(s, t, j)
    {
      if j > 0 && j + |t| <= |s| {
        assert s[1..][j - 1..j - 1 + |t|] == s[j..j + |t|];
      }
      if j == 0 {
        assert s[0..|t|] == s[..|t|];
      }
    }
    if Contains(s, t) {
      var j: nat :| j <= |s| && OccursAt(s, t, j);
      assert OccursAt(s[1..], t, j - 1);
    }
    if Contains(s[1..], t) {
      var j: nat :| j <= |s[1..]| && OccursAt(s[1..], t, j);
      assert OccursAt(s, t, j + 1);
    }
  }

  /** The pieces of s between the occurrences of sep. */
  function Split(s: string, sep: string): (pieces: seq<string>)
    requires |sep| > 0
    ensures |pieces| >= 1
    decreases |s|
  {
    match IndexOf(s, sep)
    case None => [s]
    case Some(i) => [s[..i]] + Split(s[i + |sep|..], sep)
  }

  /** The pieces glued back together with the separator. */
  function Join(pieces: seq<string>, sep: string): string
    requires |pieces| >= 1
  {
    if |pieces| == 1 then pieces[0] else pieces[0] + sep + Join(pieces[1..], sep)
  }

  // ---- Lemmas ------------------------------------------------------------

  /** Joining the pieces with the separator gives back the text. */
  lemma {:induction false} JoinSplit(s: string, sep: string)
    requires |sep| > 0
    ensures Join(Split(s, sep), sep) == s
    decreases |s|
  {
    match IndexOf(s, sep)
    case None =>
    case Some(i) =>
      var rest := s[i + |sep|..];
      JoinSplit(rest, sep);
      var pieces := Split(s, sep);
      assert pieces == [s[..i]] + Split(rest, sep);
      assert pieces[1..] == Split(rest, sep);
      assert Join(pieces, sep) == s[..i] + sep + Join(Split(rest, sep), sep);
      AroundOccurrence(s, sep, i);
  }

  lemma AroundOccurrence(s: string, sep: string, i: nat)
    requires OccursAt(s, sep, i)
    ensures s == s[..i] + sep + s[i + |sep|..]
  {
    assert s == s[..i] + s[i..i + |sep|] + s[i + |sep|..];
  }

  /** No piece contains the separator. */
  lemma {:induction false} SplitPiecesAreFree(s: string, sep: string)
    requires |sep| > 0
    ensures forall k :: 0 <= k < |Split(s, sep)| ==> !Contains(Split(s, sep)[k], sep)
    decreases |s|
  {
    match IndexOf(s, sep)
    case None =>
    case Some(i) =>
      var rest := s[i + |sep|..];
      SplitPiecesAreFree(rest, sep);
      PrefixBeforeFirst(s, sep, i);
      assert Split(s, sep) == [s[..i]] + Split(rest, sep);
  }

  /** The text before the first occurrence holds no occurrence. */
  lemma PrefixBeforeFirst(s: string, sep: string, i: nat)
    requires |sep| > 0 && i <= |s|
    requires forall j: nat :: j < i ==> !OccursAt(s, sep, j)
    ensures !Contains(s[..i], sep)
  {
    forall j: nat
      ensures !OccursAt(s[..i], sep, j)
    {
      if j + |sep| <= i {
        assert s[..i][j..j + |sep|] == s[j..j + |sep|];
        assert !OccursAt(s, sep, j);
      }
    }
  }

  /** The text stays in one piece exactly when it does not contain the separator. */
  lemma SplitSingle(s: string, sep: string)
    requires |sep| > 0
    ensures |Split(s, sep)| == 1 <==> !Contains(s, sep)
    ensures |Split(s, sep)| == 1 ==> Split(s, sep) == [s]
  {
  }

  /** More than two pieces exactly when the separator occurs again after its first occurrence. */
  lemma SplitMoreThanTwo(s: string, sep: string)
    requires |sep| > 0
    ensures |Split(s, sep)| > 2 <==> IndexOf(s, sep).Some? && Contains(s[IndexOf(s, sep).value + |sep|..], sep)
  {
    match IndexOf(s, sep)
    case None =>
    case Some(i) =>
      SplitSingle(s[i + |sep|..], sep);
  }

  /** Two pieces are the text before and after the only occurrence of the separator. */
  lemma SplitTwo(s: string, sep: string)
    requires |sep| > 0 && |Split(s, sep)| == 2
    ensures s == Split(s, sep)[0] + sep + Split(s, sep)[1]
  {
    JoinSplit(s, sep);
    assert Split(s, sep)[1..] == [Split(s, sep)[1]];
  }

  /** The converse: a text made of two separator-free parts splits into exactly those parts. */
  lemma {:induction false} SplitOfTwoParts(a: string, b: string, sep: string)
    requires |sep| > 0 && !Contains(a + sep[..|sep| - 1], sep) && !Contains(b, sep)
    ensures Split(a + sep + b, sep) == [a, b]
  {
    var s := a + sep + b;
    assert OccursAt(s, sep, |a|) by {
      assert s[|a|..|a| + |sep|] == sep;
    }
    var head := a + sep[..|sep| - 1];
    assert head == s[..|head|];
    forall j: nat | j < |a|
      ensures !OccursAt(s, sep, j)
    {
      assert j + |sep| <= |head|;
      assert s[j..j + |sep|] == head[j..j + |sep|];
      assert !OccursAt(head, sep, j);
    }
    assert Contains(s, sep);
    var r := IndexOf(s, sep).value;
    assert !OccursAt(s, sep, r) || r >= |a|;
    assert r == |a|;
    assert s[|a| + |sep|..] == b;
    assert s[..|a|] == a;
    assert Split(s, sep) == [s[..r]] + Split(s[r + |sep|..], sep);
    SplitSingle(b, sep);
  }

  /** Text without the separator's first character does not contain the separator. */
  lemma MissingFirstChar(s: string, t: string)
    requires |t| > 0 && t[0] !in s
    ensures !Contains(s, t)
  {
    forall i: nat
      ensures !OccursAt(s, t, i)
    {
      if i + |t| <= |s| {
        assert s[i..i + |t|][0] == s[i];
      }
    }
  }
}

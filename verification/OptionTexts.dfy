/** scripts/lib/command-registry.js: what counts as an option, and as an alternative, in a usage line. */
module OptionTexts {
  import opened Lists
  import opened Text
  import opened UsageOptions

  // ---- an option stands in a line ----

  /** `--`, a lower-case letter, and then lower-case letters, digits and hyphens. */
  predicate IsOption(o: string) {
    && |o| >= 3 && o[0] == '-' && o[1] == '-' && 'a' <= o[2] <= 'z'
    && forall i :: 3 <= i < |o| ==> Inner(o[i])
  }

  predicate Inner(c: char) {
    c == '-' || '0' <= c <= '9' || 'a' <= c <= 'z'
  }

  /** Nothing in front of the text, or nothing behind it, belongs to an option. */
  predicate EndsOutside(a: string) {
    a == "" || !Inner(a[|a| - 1])
  }

  predicate StartsOutside(b: string) {
    b == "" || !Inner(b[0])
  }

  lemma {:induction false} RunExact(run: string, b: string)
    requires (forall i :: 0 <= i < |run| ==> Inner(run[i])) && StartsOutside(b)
    ensures RunLength(run + b) == |run|
    decreases |run|
  {
    if run == "" {
      assert run + b == b;
    } else {
      assert (run + b)[1..] == run[1..] + b;
      RunExact(run[1..], b);
    }
  }

  lemma MatchExact(o: string, b: string)
    requires IsOption(o) && StartsOutside(b)
    ensures MatchLength(o + b) == |o|
  {
    assert (o + b)[3..] == o[3..] + b;
    RunExact(o[3..], b);
  }

  lemma MatchesOption(o: string, b: string)
    requires IsOption(o) && StartsOutside(b)
    ensures Matches(o + b) == [o] + Matches(b)
    ensures forall depth :: Outside(o + b, depth) == (if depth == 0 then [o] else []) + Outside(b, depth)
  {
    MatchExact(o, b);
    assert (o + b)[..|o|] == o && (o + b)[|o|..] == b;
  }

  lemma MatchesBehind(front: string, c: char, rest: string)
    requires !Inner(c)
    ensures Matches(front + [c] + rest) == Matches(front + [c]) + Matches(rest)
  {
    MatchesSeparate(front, c, rest);
    MatchesSeparate(front, c, "");
    assert front + [c] + "" == front + [c];
  }

  lemma OutsideBehind(front: string, c: char, rest: string)
    requires !Inner(c)
    ensures var a := front + [c]; Outside(a + rest, 0) == Outside(a, 0) + Outside(rest, DepthAfter(a, 0))
  {
    var a := front + [c];
    OutsideSeparate(front, c, rest, 0);
    OutsideSeparate(front, c, "", 0);
    assert front + [c] + "" == a;
    assert a[..|front|] == front && a[..|front| + 1] == a;
    DepthStep(a, |front|, 0);
  }

  /** The options of two texts that meet outside an option. */
  lemma Joined(a: string, rest: string)
    requires EndsOutside(a)
    ensures Matches(a + rest) == Matches(a) + Matches(rest)
    ensures Outside(a + rest, 0) == Outside(a, 0) + Outside(rest, DepthAfter(a, 0))
  {
    if a == "" {
      assert a + rest == rest;
    } else {
      var n := |a| - 1;
      assert a == a[..n] + [a[n]];
      MatchesBehind(a[..n], a[n], rest);
      OutsideBehind(a[..n], a[n], rest);
    }
  }

  /** An option is listed where it stands, between the options in front of it and those behind it. */
  lemma OptionListed(a: string, o: string, b: string)
    requires EndsOutside(a) && IsOption(o) && StartsOutside(b)
    ensures Matches(a + (o + b)) == Matches(a) + ([o] + Matches(b)) && o in OptionsIn(a + (o + b))
  {
    MatchesOption(o, b);
    Joined(a, o + b);
  }

  /** It is required as well exactly when no bracket is open in front of it. */
  lemma OptionRequired(a: string, o: string, b: string)
    requires EndsOutside(a) && IsOption(o) && StartsOutside(b)
    ensures var depth := DepthAfter(a, 0);
      Required(a + (o + b), 0) == Required(a, 0) + ((if depth == 0 then [o] else []) + Required(b, depth))
  {
    ScannersAgree(a + (o + b), 0);
    ScannersAgree(a, 0);
    ScannersAgree(b, DepthAfter(a, 0));
    MatchesOption(o, b);
    Joined(a, o + b);
  }

  predicate NoDashes(a: string) {
    forall i :: 0 <= i < |a| ==> !MatchesAt(a, "--", i)
  }

  /** The first option of a line is listed first. */
  lemma FirstListed(a: string, o: string, b: string)
    requires EndsOutside(a) && IsOption(o) && StartsOutside(b) && NoDashes(a)
    ensures var options := OptionsIn(a + (o + b)); options != [] && options[0] == o
  {
    var rest := [o] + Matches(b);
    OptionListed(a, o, b);
    NothingListed(a, 0);
    assert [] + rest == rest;
    DedupeFirst(rest);
  }

  lemma RequiredFrom(a: string, o: string, b: string)
    requires EndsOutside(a) && IsOption(o) && StartsOutside(b) && NoDashes(a)
    ensures var depth := DepthAfter(a, 0);
      Required(a + (o + b), 0) == if depth == 0 then [o] + Required(b, 0) else Required(b, depth)
  {
    OptionRequired(a, o, b);
    NothingListed(a, 0);
    ScannersAgree(a, 0);
  }

  /** It is the first required one as well, unless a bracket is open in front of it; then only others are. */
  lemma FirstRequired(a: string, o: string, b: string)
    requires EndsOutside(a) && IsOption(o) && StartsOutside(b) && NoDashes(a)
    ensures var depth, required := DepthAfter(a, 0), RequiredIn(a + (o + b));
      if depth == 0 then required != [] && required[0] == o else required == Dedupe(Required(b, depth))
  {
    RequiredFrom(a, o, b);
    if DepthAfter(a, 0) == 0 {
      DedupeFirst([o] + Required(b, 0));
    }
  }

  lemma {:induction false} DedupeFirst(xs: seq<string>)
    requires xs != []
    ensures Dedupe(xs) != [] && Dedupe(xs)[0] == xs[0]
    decreases |xs|
  {
    var n := |xs| - 1;
    if n > 0 {
      DedupeFirst(xs[..n]);
    } else {
      assert xs[..0] == [];
    }
  }

  lemma LeadingStands(s: string)
    requires MatchLength(s) > 0
    ensures IsOption(s[..MatchLength(s)]) && StartsOutside(s[MatchLength(s)..])
  {
    var n := MatchLength(s);
    RunMaximal(s[3..]);
    assert forall k :: 3 <= k < n ==> s[k] == s[3..][k - 3];
    assert n < |s| ==> s[n] == s[3..][n - 3];
  }

  lemma ListedHow(s: string, o: string) returns (k: nat)
    requires o in Matches(s)
    ensures if k == 0 then MatchLength(s) > 0 && o == s[..MatchLength(s)] else k <= |s| && o in Matches(s[k..])
  {
    var n := MatchLength(s);
    k := if n > 0 && o == s[..n] then 0 else if n > 0 then n else 1;
  }

  /** The option stands at `i`, with nothing behind it that belongs to it. */
  predicate StandsAt(s: string, o: string, i: nat) {
    i + |o| <= |s| && s[i..][..|o|] == o && IsOption(o) && StartsOutside(s[i..][|o|..])
  }

  lemma StandsBehind(s: string, o: string, k: nat, i: nat)
    requires k <= |s| && StandsAt(s[k..], o, i)
    ensures StandsAt(s, o, k + i)
  {
    assert s[k..][i..] == s[k + i..];
  }

  /** Whatever is listed is an option that stands in the line. */
  lemma {:induction false} ListedStands(s: string, o: string) returns (i: nat)
    requires o in Matches(s)
    ensures StandsAt(s, o, i)
    decreases |s|
  {
    var k := ListedHow(s, o);
    if k == 0 {
      LeadingStands(s);
      assert s[0..] == s;
      i := 0;
    } else {
      i := ListedStands(s[k..], o);
      StandsBehind(s, o, k, i);
      i := k + i;
    }
  }

  /** Every text the scanners report is an option that stands in the line. */
  lemma ReportedStands(s: string, o: string) returns (i: nat)
    requires o in OptionsIn(s) || o in RequiredIn(s)
    ensures StandsAt(s, o, i)
  {
    RequiredAreOptions(s);
    i := ListedStands(s, o);
  }

  lemma {:induction false} RunMaximal(s: string)
    ensures forall i :: 0 <= i < RunLength(s) ==> Inner(s[i])
    ensures RunLength(s) < |s| ==> !Inner(s[RunLength(s)])
    decreases |s|
  {
    if s != "" && Inner(s[0]) {
      RunMaximal(s[1..]);
      assert forall i :: 0 < i < RunLength(s) ==> s[i] == s[1..][i - 1];
    }
  }

  lemma NoMatch(s: string)
    requires !MatchesAt(s, "--", 0)
    ensures MatchLength(s) == 0
  {
    if |s| >= 2 {
      assert s[0..2] == [s[0], s[1]];
    }
  }

  /** A line without `--` lists nothing. */
  lemma {:induction false} NothingListed(s: string, depth: nat)
    requires NoDashes(s)
    ensures Matches(s) == [] && Outside(s, depth) == []
    decreases |s|
  {
    if s != "" {
      assert !MatchesAt(s, "--", 0);
      NoMatch(s);
      forall i | 0 <= i < |s| - 1 ensures !MatchesAt(s[1..], "--", i) {
        assert i + 3 <= |s| ==> s[1..][i..i + 2] == s[i + 1..i + 3];
        assert !MatchesAt(s, "--", i + 1);
      }
      NothingListed(s[1..], Enter(depth, s[0]));
    }
  }

  // ---- what is open in front of it ----

  /** Text without brackets opens and closes nothing. */
  lemma {:induction false} DepthPlain(t: string, depth: nat)
    requires forall i :: 0 <= i < |t| ==> t[i] != '[' && t[i] != ']'
    ensures DepthAfter(t, depth) == depth
    decreases |t|
  {
    if t != "" {
      DepthPlain(t[1..], depth);
    }
  }

  lemma {:induction false} DepthAppend(s: string, t: string, depth: nat)
    ensures DepthAfter(s + t, depth) == DepthAfter(t, DepthAfter(s, depth))
    decreases |s|
  {
    if s == "" {
      assert s + t == t;
    } else {
      assert (s + t)[1..] == s[1..] + t;
      DepthAppend(s[1..], t, Enter(depth, s[0]));
    }
  }

  /** An opening bracket adds a level, a closing one takes one away if there is one. */
  lemma DepthExact(s: string, depth: nat)
    ensures DepthAfter(s + "[", depth) == DepthAfter(s, depth) + 1
    ensures DepthAfter(s + "]", depth) == if DepthAfter(s, depth) == 0 then 0 else DepthAfter(s, depth) - 1
  {
    DepthAppend(s, "[", depth);
    DepthAppend(s, "]", depth);
    assert "["[1..] == "" && "]"[1..] == "";
  }

  // ---- alternatives ----

  /** One alternative as it is written: tidy, closed, without a cut inside and without a bar at its ends. */
  ghost predicate Alternative(piece: string) {
    && piece != "" && Trim(piece) == piece && piece[0] != '|' && piece[|piece| - 1] != '|'
    && DepthAfter(piece, 0) == 0 && AngleAfter(piece) == 0 && Uncut(piece)
  }

  ghost predicate AllAlternatives(pieces: seq<string>) {
    forall i :: 0 <= i < |pieces| ==> Alternative(pieces[i])
  }

  lemma {:induction false} SkipTo(line: string, start: nat, from: nat, to: nat)
    requires start <= from <= to <= |line| && forall i :: from <= i < to ==> !CutAt(line, start, i)
    ensures Alternatives(line, start, from) == Alternatives(line, start, to)
    decreases |line| - from
  {
    if from < to {
      SkipTo(line, start, from + 1, to);
    }
  }

  /** Behind a character that is no blank, the rest of a line is split like a line of its own. */
  lemma {:induction false} SplitBehind(line: string, start: nat, index: nat)
    requires start <= index <= |line| && (start > 0 ==> !IsSpace(line[start - 1]))
    ensures Alternatives(line, start, index) == SplitFrom(line[start..], index - start)
    decreases |line| - index
  {
    var rest := line[start..];
    if index < |line| {
      assert rest[..index - start] == line[start..index];
      assert SpaceAt(line, index - 1) && index > start <==> SpaceAt(rest, index - start - 1);
      assert SpaceAt(line, index + 1) <==> SpaceAt(rest, index - start + 1);
      if CutAt(line, start, index) {
        SplitBehind(line, index + 1, index + 1);
        SplitBehind(rest, index - start + 1, index - start + 1);
        assert rest[index - start + 1..] == line[index + 1..];
      } else {
        SplitBehind(line, start, index + 1);
      }
    }
  }

  function SplitFrom(line: string, index: nat): seq<string>
    requires index <= |line|
  {
    Alternatives(line, 0, index)
  }

  /** A blank or nothing. */
  predicate Lead(w: string) {
    w == "" || w == " "
  }

  lemma AngleAppendSpace(s: string)
    ensures AngleAfter(s + " ") == AngleAfter(s)
  {
    assert (s + " ")[..|s|] == s;
  }

  lemma LedDepths(w: string, t: string)
    requires Lead(w)
    ensures DepthAfter(w + t, 0) == DepthAfter(t, 0) && AngleAfter(w + t) == AngleAfter(t)
  {
    BlankKeepsDepth(w + t, |w|);
    assert (w + t)[|w|..] == t;
  }

  /** No cut falls into an alternative, wherever it stands behind the start of a line. */
  lemma NoCutInside(w: string, piece: string, tail: string, i: nat)
    requires Lead(w) && Alternative(piece) && i < |w| + |piece| && (tail != "" ==> tail[0] == ' ')
    ensures !CutAt(w + piece + tail, 0, i)
  {
    var line := w + piece + tail;
    if CutAt(line, 0, i) {
      var k := i - |w|;
      assert k >= 0 && line[i] == piece[k] && 0 < k < |piece| - 1;
      assert line[0..i] == w + piece[..k];
      LedDepths(w, piece[..k]);
      assert piece[0..k] == piece[..k] && line[i - 1] == piece[k - 1] && line[i + 1] == piece[k + 1];
      assert CutAt(piece, 0, k);
      assert false;
    }
  }

  lemma CutHere(front: string, rest: string)
    requires front != "" && front[|front| - 1] == ' ' && DepthAfter(front, 0) == 0 && AngleAfter(front) == 0
    ensures var line, k := front + ("| " + rest), |front|;
      CutAt(line, 0, k) && line[0..k] == front && line[k + 1..] == " " + rest
  {
    var line, k := front + ("| " + rest), |front|;
    assert line[0..k] == front;
    assert line[k] == '|' && line[k - 1] == ' ' && line[k + 1] == ' ';
  }

  lemma CutBetween(w: string, piece: string, rest: string)
    requires Lead(w) && Alternative(piece)
    ensures var line, k := w + piece + (" | " + rest), |w| + |piece| + 1;
      CutAt(line, 0, k) && line[0..k] == w + piece + " " && line[k + 1..] == " " + rest
  {
    var front := w + piece + " ";
    ClosedBefore(w, piece);
    CutHere(front, rest);
    assert w + piece + (" | " + rest) == front + ("| " + rest);
  }

  lemma ClosedBefore(w: string, piece: string)
    requires Lead(w) && DepthAfter(piece, 0) == 0 && AngleAfter(piece) == 0
    ensures DepthAfter(w + piece + " ", 0) == 0 && AngleAfter(w + piece + " ") == 0
  {
    assert w + piece + " " == w + (piece + " ");
    LedDepths(w, piece + " ");
    DepthAppend(piece, " ", 0);
    AngleAppendSpace(piece);
    assert " "[1..] == "";
  }

  lemma TrimmedPiece(w: string, piece: string, behind: string)
    requires Lead(w) && Lead(behind) && Alternative(piece)
    ensures Trim(w + piece + behind) == piece
  {
    TrimmedEnds(piece);
    var t := piece + behind;
    assert w + piece + behind == w + t && t[0] == piece[0];
    assert w == " " ==> (w + t)[1..] == t;
    assert TrimStart(w + t) == t;
    TrimEndFixes(piece, behind);
  }

  /** A line of alternatives between bars is split into exactly them. */
  lemma {:induction false} JoinedSplit(w: string, pieces: seq<string>)
    requires Lead(w) && pieces != [] && AllAlternatives(pieces)
    ensures Alternatives(w + Join(pieces, " | "), 0, 0) == pieces
    decreases |pieces|
  {
    var piece := pieces[0];
    if |pieces| == 1 {
      LastSplit(w, piece);
    } else {
      var rest := Join(pieces[1..], " | ");
      FirstSplit(w, piece, rest);
      JoinedSplit(" ", pieces[1..]);
      Regroup(w, piece, " | ", rest);
      assert pieces == [piece] + pieces[1..];
    }
  }

  lemma Regroup(w: string, piece: string, bar: string, rest: string)
    ensures w + (piece + bar + rest) == w + piece + (bar + rest)
  {
  }

  lemma LastSplit(w: string, piece: string)
    requires Lead(w) && Alternative(piece)
    ensures Alternatives(w + piece, 0, 0) == [piece]
  {
    var line := w + piece;
    assert line + "" == line;
    forall i | 0 <= i < |line| ensures !CutAt(line, 0, i) {
      NoCutInside(w, piece, "", i);
    }
    SkipTo(line, 0, 0, |line|);
    TrimmedPiece(w, piece, "");
    assert line[0..] == line;
  }

  lemma FirstSplit(w: string, piece: string, rest: string)
    requires Lead(w) && Alternative(piece)
    ensures Alternatives(w + piece + (" | " + rest), 0, 0) == [piece] + Alternatives(" " + rest, 0, 0)
  {
    var line, k := w + piece + (" | " + rest), |w| + |piece| + 1;
    forall i | 0 <= i < k ensures !CutAt(line, 0, i) {
      if i < k - 1 {
        NoCutInside(w, piece, " | " + rest, i);
      } else {
        assert line[i] == ' ';
      }
    }
    SkipTo(line, 0, 0, k);
    CutBetween(w, piece, rest);
    TrimmedPiece(w, piece, " ");
    SplitBehind(line, k + 1, k + 1);
  }
}

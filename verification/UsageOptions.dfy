/** scripts/lib/command-registry.js: reading options out of usage lines. */
module UsageOptions {
  import opened Lists
  import opened Text

  // ---- matches of --[a-z][a-z0-9-]* ----

  predicate IsOptionChar(c: char) {
    IsLower(c) || '0' <= c <= '9' || c == '-'
  }

  /** The length of the run of option characters at the start. */
  function RunLength(s: string): (n: nat)
    ensures n <= |s|
    ensures forall i :: 0 <= i < n ==> IsOptionChar(s[i])
  {
    if s != "" && IsOptionChar(s[0]) then 1 + RunLength(s[1..]) else 0
  }

  /** The length of the longest option at the very start, or 0. */
  function MatchLength(s: string): (n: nat)
    ensures n <= |s|
    ensures n != 0 ==> n >= 3 && forall i :: 0 <= i < n ==> IsOptionChar(s[i])
  {
    if |s| >= 3 && s[0] == '-' && s[1] == '-' && IsLower(s[2]) then 3 + RunLength(s[3..]) else 0
  }

  /** All matches of the pattern, left to right. */
  function Matches(s: string): seq<string>
    decreases |s|
  {
    if s == "" then [] else
      var n := MatchLength(s);
      if n > 0 then [s[..n]] + Matches(s[n..]) else Matches(s[1..])
  }

  function Enter(depth: nat, c: char): nat {
    if c == '[' then depth + 1 else if c == ']' && depth > 0 then depth - 1 else depth
  }

  function DepthAfter(s: string, depth: nat): nat
    decreases |s|
  {
    if s == "" then depth else DepthAfter(s[1..], Enter(depth, s[0]))
  }

  /** The matches of the pattern that start outside square brackets. */
  function Outside(s: string, depth: nat): seq<string>
    decreases |s|
  {
    if s == "" then [] else
      var n := MatchLength(s);
      if n > 0 then (if depth == 0 then [s[..n]] else []) + Outside(s[n..], depth)
      else Outside(s[1..], Enter(depth, s[0]))
  }

  // ---- the two scanners ----

  function OptionsIn(text: string): seq<string> {
    Dedupe(Matches(text))
  }

  /** The index loop of the second scanner, from `s` on at the given bracket depth. */
  function Required(s: string, depth: nat): seq<string>
    decreases |s|
  {
    if s == "" then []
    else if s[0] == '[' || s[0] == ']' then Required(s[1..], Enter(depth, s[0]))
    else if depth != 0 || MatchLength(s) == 0 then Required(s[1..], depth)
    else [s[..MatchLength(s)]] + Required(s[MatchLength(s)..], depth)
  }

  function RequiredIn(syntax: string): seq<string> {
    Dedupe(Required(syntax, 0))
  }

  method RequiredOptionsIn(syntax: string) returns (required: seq<string>)
    ensures required == RequiredIn(syntax)
  {
    var found: seq<string> := [];
    var optionalDepth: nat := 0;
    var index := 0;
    while index < |syntax|
      invariant index <= |syntax|
      invariant found + Required(syntax[index..], optionalDepth) == Required(syntax, 0)
    {
      var character := syntax[index];
      ghost var rest := syntax[index..];
      assert rest[1..] == syntax[index + 1..];
      if character == '[' {
        optionalDepth := optionalDepth + 1;
      } else if character == ']' {
        optionalDepth := if optionalDepth > 0 then optionalDepth - 1 else 0;
      } else if optionalDepth == 0 {
        var n := MatchLength(syntax[index..]);
        if n != 0 {
          found := found + [syntax[index..][..n]];
          assert rest[n..] == syntax[index + n..];
          index := index + n - 1;
        }
      }
      index := index + 1;
    }
    required := Dedupe(found);
    assert syntax[index..] == "";
    assert found == Required(syntax, 0);
  }

  lemma {:induction false} SkipMatched(s: string, n: nat, depth: nat)
    requires depth > 0 && n <= |s| && forall i :: 0 <= i < n ==> IsOptionChar(s[i])
    ensures Required(s, depth) == Required(s[n..], depth)
    decreases n
  {
    if n > 0 {
      SkipMatched(s[1..], n - 1, depth);
      assert s[1..][n - 1..] == s[n..];
    }
  }

  /** One round of the second scanner. */
  lemma RequiredStep(s: string, depth: nat)
    requires s != ""
    ensures var n := MatchLength(s);
      Required(s, depth)
      == if n > 0 then (if depth == 0 then [s[..n]] else []) + Required(s[n..], depth)
         else Required(s[1..], Enter(depth, s[0]))
  {
    var n := MatchLength(s);
    if n > 0 {
      assert IsOptionChar(s[0]);
      if depth > 0 {
        SkipMatched(s, n, depth);
      }
    }
  }

  /** The scanners agree: the second finds exactly the matches of the first that lie outside brackets. */
  lemma {:induction false} ScannersAgree(s: string, depth: nat)
    ensures Required(s, depth) == Outside(s, depth)
    decreases |s|
  {
    if s != "" {
      var n := MatchLength(s);
      RequiredStep(s, depth);
      if n > 0 {
        ScannersAgree(s[n..], depth);
      } else {
        ScannersAgree(s[1..], Enter(depth, s[0]));
      }
    }
  }

  lemma {:induction false} OutsideMatched(s: string, depth: nat)
    ensures forall o :: o in Outside(s, depth) ==> o in Matches(s)
    decreases |s|
  {
    if s != "" {
      var n := MatchLength(s);
      if n > 0 {
        OutsideMatched(s[n..], depth);
      } else {
        OutsideMatched(s[1..], Enter(depth, s[0]));
      }
    }
  }

  /** Every required option is among the options of the same text. */
  lemma RequiredAreOptions(s: string)
    ensures forall o :: o in RequiredIn(s) ==> o in OptionsIn(s)
  {
    ScannersAgree(s, 0);
    OutsideMatched(s, 0);
  }

  // ---- splitting a line at its alternatives ----

  lemma {:induction false} RunStops(a: string, c: char, b: string)
    requires !IsOptionChar(c)
    ensures RunLength(a + [c] + b) == RunLength(a)
    decreases |a|
  {
    if a != "" {
      assert (a + [c] + b)[1..] == a[1..] + [c] + b;
      RunStops(a[1..], c, b);
    }
  }

  lemma MatchStops(a: string, c: char, b: string)
    requires !IsOptionChar(c)
    ensures a == "" ==> MatchLength(a + [c] + b) == 0
    ensures MatchLength(a + [c] + b) == MatchLength(a)
  {
    var s := a + [c] + b;
    if |a| >= 3 {
      assert s[3..] == a[3..] + [c] + b;
      RunStops(a[3..], c, b);
    } else {
      assert s[|a|] == c;
    }
  }

  /** A character that can be in no option, and is no bracket, separates the matches. */
  lemma {:induction false} MatchesSeparate(a: string, c: char, b: string)
    requires !IsOptionChar(c)
    ensures Matches(a + [c] + b) == Matches(a) + Matches(b)
    decreases |a|
  {
    var s := a + [c] + b;
    MatchStops(a, c, b);
    if a == "" {
      assert s[1..] == b;
    } else {
      var n := MatchLength(a);
      var k := if n > 0 then n else 1;
      assert s[k..] == a[k..] + [c] + b && s[..k] == a[..k];
      MatchesSeparate(a[k..], c, b);
    }
  }

  lemma {:induction false} DepthSkips(s: string, n: nat, depth: nat)
    requires n <= |s| && forall i :: 0 <= i < n ==> IsOptionChar(s[i])
    ensures DepthAfter(s, depth) == DepthAfter(s[n..], depth)
    decreases n
  {
    if n > 0 {
      DepthSkips(s[1..], n - 1, depth);
      assert s[1..][n - 1..] == s[n..];
    }
  }

  lemma MiddleSlices(a: string, middle: string, b: string, k: nat)
    requires k <= |a|
    ensures var s := a + middle + b; s[k..] == a[k..] + middle + b && s[..k] == a[..k]
  {
  }

  lemma OutsideRound(s: string, depth: nat)
    requires s != ""
    ensures var n := MatchLength(s);
      && (n > 0 ==> DepthAfter(s, depth) == DepthAfter(s[n..], depth))
      && (n > 0 ==> Outside(s, depth) == (if depth == 0 then [s[..n]] else []) + Outside(s[n..], depth))
      && (n == 0 ==> Outside(s, depth) == Outside(s[1..], Enter(depth, s[0])))
  {
    DepthSkips(s, MatchLength(s), depth);
  }

  /** One round in front of a character that can be in no option. */
  lemma OutsideFront(a: string, c: char, b: string, depth: nat) returns (own: seq<string>, k: nat, next: nat)
    requires !IsOptionChar(c) && a != ""
    ensures 0 < k <= |a|
    ensures Outside(a, depth) == own + Outside(a[k..], next)
    ensures Outside(a + [c] + b, depth) == own + Outside(a[k..] + [c] + b, next)
    ensures DepthAfter(a, depth) == DepthAfter(a[k..], next)
  {
    var s, n := a + [c] + b, MatchLength(a);
    MatchStops(a, c, b);
    OutsideRound(a, depth);
    OutsideRound(s, depth);
    if n > 0 {
      own, k, next := if depth == 0 then [a[..n]] else [], n, depth;
    } else {
      own, k, next := [], 1, Enter(depth, a[0]);
    }
    MiddleSlices(a, [c], b, k);
  }

  /** A character that can be in no option separates the matches outside brackets; a bracket changes the depth. */
  lemma {:induction false} OutsideSeparate(a: string, c: char, b: string, depth: nat)
    requires !IsOptionChar(c)
    ensures Outside(a + [c] + b, depth) == Outside(a, depth) + Outside(b, Enter(DepthAfter(a, depth), c))
    decreases |a|
  {
    if a == "" {
      MatchStops(a, c, b);
      assert (a + [c] + b)[1..] == b;
    } else {
      var own, k, next := OutsideFront(a, c, b, depth);
      OutsideSeparate(a[k..], c, b, next);
      Associative(own, Outside(a[k..], next), Outside(b, Enter(DepthAfter(a[k..], next), c)));
    }
  }

  lemma SpaceIsPlain(c: char)
    requires IsSpace(c)
    ensures !IsOptionChar(c) && c != '[' && c != ']'
  {
  }

  lemma {:induction false} TrimStartKeeps(s: string)
    ensures Matches(TrimStart(s)) == Matches(s) && Outside(TrimStart(s), 0) == Outside(s, 0)
    decreases |s|
  {
    if s != "" && IsSpace(s[0]) {
      SpaceIsPlain(s[0]);
      TrimStartKeeps(s[1..]);
    }
  }

  lemma {:induction false} TrimEndKeeps(s: string)
    ensures Matches(TrimEnd(s)) == Matches(s) && Outside(TrimEnd(s), 0) == Outside(s, 0)
    decreases |s|
  {
    if s != "" && IsSpace(s[|s| - 1]) {
      var front, c := s[..|s| - 1], s[|s| - 1];
      SpaceIsPlain(c);
      assert s == front + [c] + "";
      MatchesSeparate(front, c, "");
      OutsideSeparate(front, c, "", 0);
      TrimEndKeeps(front);
    }
  }

  lemma TrimKeeps(s: string)
    ensures Matches(Trim(s)) == Matches(s) && Outside(Trim(s), 0) == Outside(s, 0)
  {
    TrimStartKeeps(s);
    TrimEndKeeps(TrimStart(s));
  }

  predicate SpaceAt(line: string, i: int) {
    0 <= i < |line| && IsSpace(line[i])
  }

  /** Appends a trimmed piece unless it is empty. */
  function WithPiece(pieces: seq<string>, piece: string): seq<string> {
    if Trim(piece) == "" then pieces else pieces + [Trim(piece)]
  }

  function AllMatches(pieces: seq<string>): seq<string> {
    if pieces == [] then [] else AllMatches(pieces[..|pieces| - 1]) + Matches(pieces[|pieces| - 1])
  }

  function AllOutside(pieces: seq<string>): seq<string> {
    if pieces == [] then [] else AllOutside(pieces[..|pieces| - 1]) + Outside(pieces[|pieces| - 1], 0)
  }

  lemma PieceCounted(pieces: seq<string>, piece: string)
    ensures AllMatches(WithPiece(pieces, piece)) == AllMatches(pieces) + Matches(piece)
    ensures AllOutside(WithPiece(pieces, piece)) == AllOutside(pieces) + Outside(piece, 0)
  {
    TrimKeeps(piece);
    if Trim(piece) != "" {
      assert (pieces + [Trim(piece)])[..|pieces|] == pieces;
    }
  }

  lemma {:induction false} DepthStep(s: string, i: nat, depth: nat)
    requires i < |s|
    ensures DepthAfter(s[..i + 1], depth) == Enter(DepthAfter(s[..i], depth), s[i])
    decreases i
  {
    if i == 0 {
      assert s[..1][1..] == "";
    } else {
      DepthStep(s[1..], i - 1, Enter(depth, s[0]));
      assert s[..i + 1][1..] == s[1..][..i] && s[..i][1..] == s[1..][..i - 1];
    }
  }

  /** The pieces so far and the rest of the line hold what the whole line holds. */
  ghost predicate Conserved(line: string, start: nat, pieces: seq<string>)
    requires start <= |line|
  {
    && AllMatches(pieces) + Matches(line[start..]) == Matches(line)
    && AllOutside(pieces) + Outside(line[start..], 0) == Outside(line, 0)
    && AllTrimmed(pieces)
  }

  predicate AllTrimmed(pieces: seq<string>) {
    forall piece :: piece in pieces ==> piece != "" && Trim(piece) == piece
  }

  lemma PieceTrimmed(pieces: seq<string>, piece: string)
    requires AllTrimmed(pieces)
    ensures AllTrimmed(WithPiece(pieces, piece))
  {
    TrimTwice(piece);
  }

  lemma CutConserves(line: string, start: nat, index: nat, pieces: seq<string>)
    requires start <= index < |line| && line[index] == '|' && DepthAfter(line[start..index], 0) == 0
    requires Conserved(line, start, pieces)
    ensures Conserved(line, index + 1, pieces + WithPiece([], line[start..index]))
  {
    var piece, rest := line[start..index], line[index + 1..];
    CutCounted(line, start, index);
    PieceCounted(pieces, piece);
    PieceTrimmed(pieces, piece);
    assert pieces + WithPiece([], piece) == WithPiece(pieces, piece);
    Associative(AllMatches(pieces), Matches(piece), Matches(rest));
    Associative(AllOutside(pieces), Outside(piece, 0), Outside(rest, 0));
  }

  lemma DepthExtends(line: string, start: nat, index: nat)
    requires start <= index < |line|
    ensures DepthAfter(line[start..index + 1], 0) == Enter(DepthAfter(line[start..index], 0), line[index])
  {
    var rest := line[start..];
    DepthStep(rest, index - start, 0);
    assert rest[..index - start] == line[start..index] && rest[..index - start + 1] == line[start..index + 1];
  }

  lemma NothingLeft(line: string, start: nat, pieces: seq<string>)
    requires start <= |line| && Conserved(line, start, pieces)
    ensures var all := pieces + WithPiece([], line[start..]);
      AllMatches(all) == Matches(line) && AllOutside(all) == Outside(line, 0) && AllTrimmed(all)
  {
    PieceCounted(pieces, line[start..]);
    PieceTrimmed(pieces, line[start..]);
    assert pieces + WithPiece([], line[start..]) == WithPiece(pieces, line[start..]);
  }

  function EnterAngle(depth: nat, c: char): nat {
    if c == '<' then depth + 1 else if c == '>' && depth > 0 then depth - 1 else depth
  }

  function AngleAfter(s: string): nat {
    if s == "" then 0 else EnterAngle(AngleAfter(s[..|s| - 1]), s[|s| - 1])
  }

  lemma AngleExtends(line: string, start: nat, index: nat)
    requires start <= index < |line|
    ensures AngleAfter(line[start..index + 1]) == EnterAngle(AngleAfter(line[start..index]), line[index])
  {
    assert line[start..index + 1][..index - start] == line[start..index];
  }

  /** A bar between blanks, outside every bracket opened since `start`. */
  predicate CutAt(line: string, start: nat, i: nat)
    requires start <= i < |line|
  {
    && line[i] == '|' && DepthAfter(line[start..i], 0) == 0 && AngleAfter(line[start..i]) == 0
    && SpaceAt(line, i - 1) && SpaceAt(line, i + 1)
  }

  /** The pieces between the cuts from `index` on, for a piece begun at `start`. */
  function Alternatives(line: string, start: nat, index: nat): seq<string>
    requires start <= index <= |line|
    decreases |line| - index
  {
    if index == |line| then WithPiece([], line[start..])
    else if CutAt(line, start, index) then WithPiece([], line[start..index]) + Alternatives(line, index + 1, index + 1)
    else Alternatives(line, start, index + 1)
  }

  /**
   * Splitting at top-level alternatives loses and invents no option: the pieces, in order, hold exactly
   * the matches of the line, and exactly its matches outside brackets.
   */
  method SplitUsageAlternatives(line: string) returns (alternatives: seq<string>)
    ensures alternatives == Alternatives(line, 0, 0)
    ensures AllMatches(alternatives) == Matches(line)
    ensures AllOutside(alternatives) == Outside(line, 0)
    ensures forall piece :: piece in alternatives ==> piece != "" && Trim(piece) == piece
  {
    alternatives := [];
    var start := 0;
    var squareDepth: nat := 0;
    var angleDepth: nat := 0;
    for index := 0 to |line|
      invariant start <= index
      invariant squareDepth == DepthAfter(line[start..index], 0)
      invariant angleDepth == AngleAfter(line[start..index])
      invariant Conserved(line, start, alternatives)
      invariant alternatives + Alternatives(line, start, index) == Alternatives(line, 0, 0)
    {
      var character := line[index];
      DepthExtends(line, start, index);
      AngleExtends(line, start, index);
      if character == '[' {
        squareDepth := squareDepth + 1;
      } else if character == ']' {
        squareDepth := if squareDepth > 0 then squareDepth - 1 else 0;
      } else if character == '<' {
        angleDepth := angleDepth + 1;
      } else if character == '>' {
        angleDepth := if angleDepth > 0 then angleDepth - 1 else 0;
      } else if character == '|' && squareDepth == 0 && angleDepth == 0
                && SpaceAt(line, index - 1) && SpaceAt(line, index + 1) {
        var piece := WithPiece([], line[start..index]);
        CutConserves(line, start, index, alternatives);
        Associative(alternatives, piece, Alternatives(line, index + 1, index + 1));
        alternatives := alternatives + piece;
        start := index + 1;
      }
    }
    NothingLeft(line, start, alternatives);
    alternatives := alternatives + WithPiece([], line[start..]);
  }

  /** No alternative holds another cut: a piece that is split again comes back whole. */
  lemma {:induction false} SplitsOnce(line: string, start: nat, index: nat)
    requires start <= index <= |line|
    requires forall i :: start <= i < index ==> !CutAt(line, start, i)
    ensures forall piece :: piece in Alternatives(line, start, index) ==> Uncut(piece)
    decreases |line| - index
  {
    if index == |line| {
      TrimmedUncut(line, start, index);
      assert line[start..index] == line[start..];
    } else if CutAt(line, start, index) {
      TrimmedUncut(line, start, index);
      SplitsOnce(line, index + 1, index + 1);
    } else {
      SplitsOnce(line, start, index + 1);
    }
  }

  ghost predicate Uncut(piece: string) {
    forall i :: 0 <= i < |piece| ==> !CutAt(piece, 0, i)
  }

  lemma {:induction false} BlankKeepsDepth(s: string, n: nat)
    requires n <= |s| && forall i :: 0 <= i < n ==> IsSpace(s[i])
    ensures DepthAfter(s, 0) == DepthAfter(s[n..], 0)
    ensures AngleAfter(s) == AngleAfter(s[n..])
    decreases n, |s|
  {
    if n > 0 {
      SpaceIsPlain(s[0]);
      BlankKeepsDepth(s[1..], n - 1);
      assert s[1..][n - 1..] == s[n..];
      AngleSkipsFirst(s);
    }
  }

  lemma {:induction false} AngleSkipsFirst(s: string)
    requires s != "" && IsSpace(s[0])
    ensures AngleAfter(s) == AngleAfter(s[1..])
    decreases |s|
  {
    if |s| > 1 {
      var n := |s| - 1;
      AngleSkipsFirst(s[..n]);
      assert s[..n][1..] == s[1..][..n - 1];
    } else {
      assert s[..0] == "";
    }
  }

  /** A cut inside a part of the line that only blanks precede is a cut of the line. */
  lemma CutOfPart(line: string, start: nat, off: nat, piece: string, i: nat)
    requires start + off + |piece| <= |line| && piece == line[start + off..start + off + |piece|]
    requires forall k :: start <= k < start + off ==> IsSpace(line[k])
    requires i < |piece| && CutAt(piece, 0, i)
    ensures CutAt(line, start, start + off + i)
  {
    var j := start + off + i;
    var before := line[start..j];
    BlankKeepsDepth(before, off);
    assert before[off..] == piece[0..i];
    assert piece[i] == line[j] && piece[i - 1] == line[j - 1] && piece[i + 1] == line[j + 1];
  }

  lemma TrimmedUncut(line: string, start: nat, end: nat)
    requires start <= end <= |line|
    requires forall i :: start <= i < end ==> !CutAt(line, start, i)
    ensures Uncut(Trim(line[start..end]))
  {
    var raw := line[start..end];
    var inner := TrimStart(raw);
    var piece := Trim(raw);
    var off := |raw| - |inner|;
    TrimStartFacts(raw);
    TrimEndFacts(inner);
    assert piece == line[start + off..start + off + |piece|];
    forall k | start <= k < start + off ensures IsSpace(line[k]) {
      assert raw[k - start] == line[k];
    }
    forall i | 0 <= i < |piece| ensures !CutAt(piece, 0, i) {
      if CutAt(piece, 0, i) {
        CutOfPart(line, start, off, piece, i);
        assert false;
      }
    }
  }

  lemma CutCounted(line: string, start: nat, index: nat)
    requires start <= index < |line| && line[index] == '|' && DepthAfter(line[start..index], 0) == 0
    ensures Matches(line[start..]) == Matches(line[start..index]) + Matches(line[index + 1..])
    ensures Outside(line[start..], 0) == Outside(line[start..index], 0) + Outside(line[index + 1..], 0)
  {
    assert line[start..] == line[start..index] + ['|'] + line[index + 1..];
    MatchesSeparate(line[start..index], '|', line[index + 1..]);
    OutsideSeparate(line[start..index], '|', line[index + 1..], 0);
  }

  lemma TrimTwice(s: string)
    ensures Trim(Trim(s)) == Trim(s)
  {
    var t := Trim(s);
    TrimStartFacts(s);
    TrimEndFacts(TrimStart(s));
    assert t != "" ==> t[0] == TrimStart(s)[0];
  }

  // ---- the invocation contract ----

  function IntersectionOf(lists: seq<seq<string>>): seq<string> {
    if lists == [] then [] else Shared(Dedupe(lists[0]), lists)
  }

  function Shared(candidates: seq<string>, lists: seq<seq<string>>): (r: seq<string>)
    ensures forall x :: x in r <==> x in candidates && forall l :: l in lists ==> x in l
  {
    if candidates == [] then [] else
      (if forall l :: l in lists ==> candidates[0] in l then [candidates[0]] else []) + Shared(candidates[1..], lists)
  }

  function FlatOptions(lines: seq<string>): seq<string> {
    if lines == [] then [] else OptionsIn(lines[0]) + FlatOptions(lines[1..])
  }

  function FlatRequired(lines: seq<string>): seq<string> {
    if lines == [] then [] else RequiredIn(lines[0]) + FlatRequired(lines[1..])
  }

  function MapOptions(lines: seq<string>): seq<seq<string>> {
    seq(|lines|, i requires 0 <= i < |lines| => OptionsIn(lines[i]))
  }

  function MapRequired(lines: seq<string>): seq<seq<string>> {
    seq(|lines|, i requires 0 <= i < |lines| => RequiredIn(lines[i]))
  }

  function Select(lines: seq<string>, keep: string -> bool): (r: seq<string>)
    ensures forall x :: x in r <==> x in lines && keep(x)
  {
    if lines == [] then [] else (if keep(lines[0]) then [lines[0]] else []) + Select(lines[1..], keep)
  }

  datatype Contract = Contract(allowedOptions: seq<string>, requiredOptions: seq<string>)

  /**
   * The contract of one command, or of one of its subcommands. `isCommon` and `names` stand for the
   * line matchers, `spelledOut` for the help lines that repeat the command prefix.
   */
  function InvocationContract(usageLines: seq<string>, helpLines: seq<string>, subcommand: bool,
                              isCommon: string -> bool, names: string -> bool, spelledOut: string -> bool): Contract {
    if !subcommand then
      var common := Select(usageLines, isCommon);
      Contract(Dedupe(FlatOptions(common)), Dedupe(FlatRequired(common)))
    else
      var usageSpecific, helpSpecific := Select(usageLines, names), Select(helpLines, names);
      Contract(Dedupe(IntersectionOf(MapOptions(usageLines)) + FlatOptions(usageSpecific + helpSpecific)),
               Dedupe(IntersectionOf(MapRequired(usageLines))
                      + FlatRequired(usageSpecific + Select(helpSpecific, l => !spelledOut(l)))))
  }

  lemma {:induction false} FlatMembers(lines: seq<string>)
    ensures forall o :: o in FlatOptions(lines) <==> exists l :: l in lines && o in OptionsIn(l)
    ensures forall o :: o in FlatRequired(lines) <==> exists l :: l in lines && o in RequiredIn(l)
    decreases |lines|
  {
    if lines != [] {
      FlatMembers(lines[1..]);
      assert lines == [lines[0]] + lines[1..];
    }
  }

  lemma FlatSubset(syntax: seq<string>, specific: seq<string>)
    requires forall l :: l in syntax ==> l in specific
    ensures forall o :: o in FlatRequired(syntax) ==> o in FlatOptions(specific)
  {
    FlatMembers(syntax);
    FlatMembers(specific);
    forall l | l in syntax ensures forall o :: o in RequiredIn(l) ==> o in OptionsIn(l) {
      RequiredAreOptions(l);
    }
  }

  lemma SharedSubset(usageLines: seq<string>)
    ensures forall o :: o in IntersectionOf(MapRequired(usageLines)) ==> o in IntersectionOf(MapOptions(usageLines))
  {
    var required, options := MapRequired(usageLines), MapOptions(usageLines);
    forall o | o in IntersectionOf(required) ensures o in IntersectionOf(options) {
      forall i | 0 <= i < |usageLines| ensures o in options[i] {
        assert required[i] in required;
        RequiredAreOptions(usageLines[i]);
      }
    }
  }

  /** A contract never requires an option it does not allow. */
  lemma RequiredAllowed(usageLines: seq<string>, helpLines: seq<string>, subcommand: bool,
                        isCommon: string -> bool, names: string -> bool, spelledOut: string -> bool)
    ensures var c := InvocationContract(usageLines, helpLines, subcommand, isCommon, names, spelledOut);
      forall o :: o in c.requiredOptions ==> o in c.allowedOptions
  {
    if !subcommand {
      FlatSubset(Select(usageLines, isCommon), Select(usageLines, isCommon));
    } else {
      var usageSpecific, helpSpecific := Select(usageLines, names), Select(helpLines, names);
      SharedSubset(usageLines);
      FlatSubset(usageSpecific + Select(helpSpecific, l => !spelledOut(l)), usageSpecific + helpSpecific);
    }
  }

  /** Every line has it, and there is one. */
  lemma IntersectionExact(lists: seq<seq<string>>, o: string)
    ensures o in IntersectionOf(lists) <==> lists != [] && forall l :: l in lists ==> o in l
  {
    if lists != [] {
      assert lists[0] in lists;
    }
  }

  lemma MappedShared(lines: seq<string>, lists: seq<seq<string>>, o: string)
    requires |lists| == |lines|
    ensures (forall l :: l in lists ==> o in l) <==> forall i :: 0 <= i < |lines| ==> o in lists[i]
  {
    if forall l :: l in lists ==> o in l {
      forall i | 0 <= i < |lines| ensures o in lists[i] {
        assert lists[i] in lists;
      }
    }
  }

  lemma SharedOptions(lines: seq<string>, o: string)
    ensures o in IntersectionOf(MapOptions(lines)) <==> lines != [] && forall l :: l in lines ==> o in OptionsIn(l)
  {
    IntersectionExact(MapOptions(lines), o);
    MappedShared(lines, MapOptions(lines), o);
    assert forall i :: 0 <= i < |lines| ==> MapOptions(lines)[i] == OptionsIn(lines[i]);
  }

  lemma SharedRequired(lines: seq<string>, o: string)
    ensures o in IntersectionOf(MapRequired(lines)) <==> lines != [] && forall l :: l in lines ==> o in RequiredIn(l)
  {
    IntersectionExact(MapRequired(lines), o);
    MappedShared(lines, MapRequired(lines), o);
    assert forall i :: 0 <= i < |lines| ==> MapRequired(lines)[i] == RequiredIn(lines[i]);
  }

  /**
   * What the contract of a subcommand allows and requires: what every usage line has, and what the lines that name
   * it have; but a help line that repeats the prefix requires nothing.
   */
  lemma SubcommandExact(usageLines: seq<string>, helpLines: seq<string>, isCommon: string -> bool,
      names: string -> bool, spelledOut: string -> bool, o: string)
    ensures var c := InvocationContract(usageLines, helpLines, true, isCommon, names, spelledOut);
      && (o in c.allowedOptions <==>
        || (usageLines != [] && forall l :: l in usageLines ==> o in OptionsIn(l))
        || exists l :: (l in usageLines || l in helpLines) && names(l) && o in OptionsIn(l))
      && (o in c.requiredOptions <==>
        || (usageLines != [] && forall l :: l in usageLines ==> o in RequiredIn(l))
        || exists l :: (l in usageLines || (l in helpLines && !spelledOut(l))) && names(l) && o in RequiredIn(l))
  {
    var usageSpecific, helpSpecific := Select(usageLines, names), Select(helpLines, names);
    SharedOptions(usageLines, o);
    SharedRequired(usageLines, o);
    FlatMembers(usageSpecific + helpSpecific);
    FlatMembers(usageSpecific + Select(helpSpecific, l => !spelledOut(l)));
  }

  /** The contract of a command on its own: what the common lines have. */
  lemma CommandExact(usageLines: seq<string>, helpLines: seq<string>, isCommon: string -> bool,
      names: string -> bool, spelledOut: string -> bool, o: string)
    ensures var c := InvocationContract(usageLines, helpLines, false, isCommon, names, spelledOut);
      && (o in c.allowedOptions <==> exists l :: l in usageLines && isCommon(l) && o in OptionsIn(l))
      && (o in c.requiredOptions <==> exists l :: l in usageLines && isCommon(l) && o in RequiredIn(l))
  {
    FlatMembers(Select(usageLines, isCommon));
  }
}

/** scripts/changelog.js: the pull numbers of a subject, followed through the cleaning of its entry. */
module PullNumbers {
  import opened Wrappers
  import opened Lists
  import opened Text
  import opened CommitEntries

  // ---- reading a text one character at a time ----

  /** The number being read: nothing, or a hash with the digits seen so far. */
  predicate IsOpen(cur: string) {
    cur == "" || (cur[0] == '#' && forall i :: 1 <= i < |cur| ==> IsDigit(cur[i]))
  }

  /** What is shown when the number being read ends. */
  function Closed(cur: string): seq<string> {
    if |cur| >= 2 then [cur] else []
  }

  function Opened(cur: string, c: char): string {
    if c == '#' then "#" else if cur != "" && IsDigit(c) then cur + [c] else ""
  }

  /** The pull numbers of a text in front of which `cur` has been read. */
  function Runs(cur: string, s: string): seq<string>
    decreases |s|
  {
    if s == "" then Closed(cur)
    else if cur != "" && IsDigit(s[0]) then Runs(cur + [s[0]], s[1..])
    else Closed(cur) + Runs(Opened("", s[0]), s[1..])
  }

  lemma PullsOfOpen(cur: string)
    requires IsOpen(cur)
    ensures Pulls(cur) == Closed(cur)
  {
    if |cur| >= 2 {
      PullItself(cur);
    } else if cur != "" {
      assert cur[1..] == "";
    }
  }

  /** A number ends at a character that is no digit. */
  lemma ClosedBy(cur: string, s: string)
    requires IsOpen(cur) && (s == "" || !IsDigit(s[0]))
    ensures Pulls(cur + s) == Closed(cur) + Pulls(s)
  {
    if s == "" {
      assert cur + s == cur;
      PullsOfOpen(cur);
    } else if cur == "" {
      assert cur + s == s;
    } else {
      var all, digits := cur + s, cur[1..];
      AllRun(digits);
      RunStops(digits, s[0], s[1..]);
      assert all[1..] == digits + [s[0]] + s[1..];
      assert all[..|cur|] == cur && all[|cur|..] == s && (|cur| == 1 ==> all[1..] == s);
    }
  }

  /** The reader of single characters finds the same numbers. */
  lemma {:induction false} RunsRead(cur: string, s: string)
    requires IsOpen(cur)
    ensures Runs(cur, s) == Pulls(cur + s)
    decreases |s|
  {
    if s == "" {
      ClosedBy(cur, s);
    } else if cur != "" && IsDigit(s[0]) {
      RunsRead(cur + [s[0]], s[1..]);
      assert cur + [s[0]] + s[1..] == cur + s;
    } else {
      var next := Opened("", s[0]);
      RunsRead(next, s[1..]);
      if next == "#" {
        assert next + s[1..] == s;
      } else {
        assert next + s[1..] == s[1..];
      }
      if IsDigit(s[0]) {
        assert cur + s == s;
      } else {
        ClosedBy(cur, s);
      }
    }
  }

  lemma RunsPulls(s: string)
    ensures Runs("", s) == Pulls(s)
  {
    RunsRead("", s);
    assert "" + s == s;
  }

  /** One character: the number being read goes on, or it ends and the rest is read afresh. */
  lemma RunsStep(cur: string, c: char, s: string)
    ensures Runs(cur, [c] + s)
         == (if cur != "" && IsDigit(c) then [] else Closed(cur)) + Runs(Opened(cur, c), s)
  {
    assert ([c] + s)[1..] == s;
  }

  /** Nothing is joined to a number that is not followed by a digit. */
  lemma RunsClose(cur: string, s: string)
    requires cur == "" || s == "" || !IsDigit(s[0])
    ensures Runs(cur, s) == Closed(cur) + Runs("", s)
  {
  }

  // ---- white space ----

  lemma {:induction false} RunsSkip(cur: string, s: string, w: nat)
    requires 0 < w <= |s| && forall i :: 0 <= i < w ==> IsSpace(s[i])
    ensures Runs(cur, s) == Closed(cur) + Runs("", s[w..])
    decreases w
  {
    assert IsSpace(s[0]) && !IsDigit(s[0]) && s[0] != '#';
    if w > 1 {
      RunsSkip("", s[1..], w - 1);
      assert s[1..][w - 1..] == s[w..];
    }
  }

  lemma {:induction false} RunsSqueezed(cur: string, s: string)
    ensures Runs(cur, Squeeze(s)) == Runs(cur, s)
    decreases |s|
  {
    if s != "" {
      var w := SpaceRun(s);
      if w >= 2 {
        RunsSqueezed("", s[w..]);
        RunsSkip(cur, s, w);
        RunsStep(cur, ' ', Squeeze(s[w..]));
        assert " " + Squeeze(s[w..]) == [' '] + Squeeze(s[w..]);
      } else {
        RunsSqueezed(Opened(cur, s[0]), s[1..]);
        RunsStep(cur, s[0], Squeeze(s[1..]));
        RunsStep(cur, s[0], s[1..]);
        assert s == [s[0]] + s[1..];
      }
    }
  }

  lemma SpacesBefore(s: string, w: nat)
    requires w <= |s| && forall i :: 0 <= i < w ==> IsSpace(s[i])
    ensures Pulls(s) == Pulls(s[w..])
  {
    RunsPulls(s);
    RunsPulls(s[w..]);
    if w > 0 {
      RunsSkip("", s, w);
    } else {
      assert s[0..] == s;
    }
  }

  lemma SpacesBehind(s: string, w: string)
    requires forall i :: 0 <= i < |w| ==> IsSpace(w[i])
    ensures Pulls(s + w) == Pulls(s)
  {
    if w == "" {
      assert s + w == s;
    } else {
      assert IsSpace(w[0]) && !IsDigit(w[0]) && w[0] != '#';
      PullsSeparate(s, w[0], w[1..]);
      SpacesBefore(w[1..], |w| - 1);
      assert w[1..][|w| - 1..] == "" && s + [w[0]] + w[1..] == s + w;
    }
  }

  lemma TrimmedEnd(s: string)
    ensures Pulls(TrimEnd(s)) == Pulls(s)
  {
    TrimEndFacts(s);
    var n := |TrimEnd(s)|;
    SpacesBehind(s[..n], s[n..]);
    assert TrimEnd(s) == s[..n] && s == s[..n] + s[n..];
  }

  lemma TrimmedStart(s: string)
    ensures Pulls(TrimStart(s)) == Pulls(s)
  {
    TrimStartFacts(s);
    SpacesBefore(s, |s| - |TrimStart(s)|);
  }

  lemma Trimmed(s: string)
    ensures Pulls(Trim(s)) == Pulls(s)
  {
    TrimmedStart(s);
    TrimmedEnd(TrimStart(s));
  }

  lemma StripRefKeeps(s: string)
    ensures Pulls(StripRef(s)) == Pulls(StripCites(s))
  {
    var t := StripCites(s);
    RunsSqueezed("", t);
    RunsPulls(t);
    RunsPulls(Squeeze(t));
    Trimmed(Squeeze(t));
  }

  // ---- internal handles ----

  lemma {:induction false} PullsArePulls(s: string)
    ensures forall r :: r in Pulls(s) ==> IsPull(r)
    decreases |s|
  {
    if s != "" {
      PullsStep(s);
      var n := PullLength(s);
      if n > 0 {
        PullsArePulls(s[n..]);
        assert forall i :: 1 <= i < n ==> s[i] == s[1..][i - 1];
      } else {
        PullsArePulls(s[1..]);
      }
    }
  }

  lemma Behind(s: string, w: nat, n: nat)
    requires w + n <= |s|
    ensures s[w..][n..] == s[w + n..]
  {
  }

  lemma Around(s: string, i: nat)
    requires i < |s|
    ensures s[..i] + [s[i]] + s[i + 1..] == s
  {
  }

  /** A character that is in no pull number, at a place in the text. */
  lemma PullsAt(s: string, i: nat)
    requires i < |s| && !IsDigit(s[i]) && s[i] != '#'
    ensures Pulls(s) == Pulls(s[..i]) + Pulls(s[i + 1..])
  {
    Around(s, i);
    PullsSeparate(s[..i], s[i], s[i + 1..]);
  }

  /** The numbers of a text with a final parenthesis stand before it or inside it. */
  lemma PartsPulls(text: string)
    requires FinalParens(text).Tail?
    ensures var tail := FinalParens(text); Pulls(text) == Pulls(tail.head) + Pulls(tail.inner)
  {
    var n := |text| - 1;
    var s := text[..n];
    var k := LastParen(s);
    PullsAt(text, n);
    assert text[n + 1..] == "";
    PullsAt(s, k);
    TrimmedEnd(s[..k]);
  }

  /** Dropping a parenthesis that cites something internal drops no pull number. */
  lemma HandleKeepsPulls(text: string)
    ensures Pulls(StripInternalHandle(text)) == Pulls(text)
  {
    var subject := Trim(text);
    Trimmed(text);
    var tail := FinalParens(subject);
    if tail.Tail? && HasHandle(tail.inner) {
      PartsPulls(subject);
      Trimmed(tail.head);
      PullsArePulls(tail.inner);
      if Pulls(tail.inner) != [] {
        BracketedPulls(Trim(tail.head), Pulls(tail.inner));
      }
    }
  }

  // ---- the whole entry ----

  function ScopePulls(scope: Option<string>): seq<string> {
    if scope.Some? then Pulls(scope.value) else []
  }

  lemma ScopedPulls(name: string, clean: string)
    ensures Pulls(name + ": " + clean) == Pulls(name) + Pulls(clean)
  {
    var s, n := name + ": " + clean, |name|;
    assert s[n] == ':' && s[..n] == name && s[n + 1..] == " " + clean;
    PullsAt(s, n);
    SpacesBefore(" " + clean, 1);
    assert (" " + clean)[1..] == clean;
  }

  /** Past the citations that are cut out, cleaning loses no pull number and brings none in. */
  lemma BasePulls(scope: Option<string>, subject: string)
    ensures Pulls(Base(scope, subject)) == ScopePulls(scope) + Pulls(StripCites(subject))
  {
    var clean := StripInternalHandle(StripRef(subject));
    StripRefKeeps(subject);
    HandleKeepsPulls(StripRef(subject));
    if scope.Some? && scope.value != "" {
      ScopedPulls(scope.value, clean);
    } else {
      assert "" + clean == clean;
    }
  }

  // ---- what is left when citations are cut out ----

  predicate DigitFirst(s: string) {
    s != "" && IsDigit(s[0])
  }

  /** The text behind the citations at its start. */
  function PastCites(s: string): string
    decreases |s|
  {
    var k := SpacedCite(s);
    if k > 0 then PastCites(s[k..]) else s
  }

  /**
   * Cutting out a citation joins what stands around it into a number: a hash, with or without digits,
   * on the left, and a digit on the right. `open` says whether a hash with digits has just been read.
   */
  predicate Glues(s: string, open: bool)
    decreases |s|
  {
    s != "" &&
    var k := SpacedCite(s);
    if k > 0 then (open && DigitFirst(PastCites(s[k..]))) || Glues(s[k..], false)
    else Glues(s[1..], s[0] == '#' || (open && IsDigit(s[0])))
  }

  lemma {:induction false} PastCitesFirst(s: string)
    ensures DigitFirst(StripCites(s)) <==> DigitFirst(PastCites(s))
    decreases |s|
  {
    var k := SpacedCite(s);
    if k > 0 {
      PastCitesFirst(s[k..]);
    }
  }

  /** Characters in a list of numbers. */
  function Weight(xs: seq<string>): nat {
    if xs == [] then 0 else |xs[0]| + Weight(xs[1..])
  }

  lemma {:induction false} WeightAppend(xs: seq<string>, ys: seq<string>)
    ensures Weight(xs + ys) == Weight(xs) + Weight(ys)
    decreases |xs|
  {
    if xs == [] {
      assert xs + ys == ys;
    } else {
      assert (xs + ys)[1..] == xs[1..] + ys;
      WeightAppend(xs[1..], ys);
    }
  }

  lemma WeightOne(x: string)
    ensures Weight([x]) == |x|
  {
    assert [x][1..] == [];
  }

  lemma WeightAround(before: seq<string>, x: string, behind: seq<string>)
    ensures Weight(before + ([x] + behind)) == |x| + Weight(before + behind)
    ensures multiset(before + ([x] + behind)) == multiset{x} + multiset(before + behind)
  {
    WeightAppend(before, behind);
    WeightAppend(before, [x] + behind);
    WeightAppend([x], behind);
    WeightOne(x);
  }

  lemma SameRest(x: string, a: multiset<string>, b: multiset<string>)
    requires multiset{x} + a == multiset{x} + b
    ensures a == b
  {
    forall y ensures a[y] == b[y] {
      assert (multiset{x} + a)[y] == (multiset{x} + b)[y];
    }
  }

  lemma {:induction false} WeightCounts(xs: seq<string>, ys: seq<string>)
    requires multiset(xs) == multiset(ys)
    ensures Weight(xs) == Weight(ys)
    decreases |xs|
  {
    if xs == [] {
      assert |multiset(ys)| == 0;
    } else {
      var x, rest := xs[0], xs[1..];
      assert xs == [x] + rest;
      assert x in multiset(xs);
      var i :| 0 <= i < |ys| && ys[i] == x;
      var others := ys[..i] + ys[i + 1..];
      assert ys == ys[..i] + ([x] + ys[i + 1..]);
      WeightAround(ys[..i], x, ys[i + 1..]);
      SameRest(x, multiset(rest), multiset(others));
      WeightCounts(rest, others);
    }
  }

  /** Text joined to an open number never shows fewer characters, and more when it starts with a digit. */
  lemma {:induction false} OpenWeighs(cur: string, s: string)
    requires cur != ""
    ensures var apart := Weight(Closed(cur)) + Weight(Runs("", s));
      if DigitFirst(s) then Weight(Runs(cur, s)) > apart else Weight(Runs(cur, s)) == apart
    decreases |s|
  {
    if DigitFirst(s) {
      var next := cur + [s[0]];
      OpenWeighs(next, s[1..]);
      WeightOne(next);
      WeightOne(cur);
      assert Runs(cur, s) == Runs(next, s[1..]);
      assert Opened("", s[0]) == "" && Runs("", s) == Runs("", s[1..]);
      assert Weight(Closed(next)) == |cur| + 1 && Weight(Closed(cur)) <= |cur|;
    } else {
      RunsClose(cur, s);
      WeightAppend(Closed(cur), Runs("", s));
    }
  }

  lemma CiteIsPull(t: string)
    requires CiteLength(t) > 0
    ensures IsPull(t[1..CiteLength(t) - 1])
  {
    var r := t[1..CiteLength(t) - 1];
    assert forall i :: 1 <= i < |r| ==> r[i] == t[2..][i - 1];
  }

  lemma CitePulls(t: string)
    requires CiteLength(t) > 0
    ensures var n := CiteLength(t); Pulls(t) == [t[1..n - 1]] + Pulls(t[n..])
  {
    var n := CiteLength(t);
    var u := t[1..];
    assert u[n - 2] == ')' && u[..n - 2] == t[1..n - 1] && u[n - 1..] == t[n..];
    PullsAt(u, n - 2);
    CiteIsPull(t);
    PullItself(t[1..n - 1]);
  }

  /** A citation ends the number in front of it and shows one itself. */
  lemma RunsCite(cur: string, t: string)
    requires CiteLength(t) > 0
    ensures var n := CiteLength(t); Runs(cur, t) == Closed(cur) + ([t[1..n - 1]] + Runs("", t[n..]))
  {
    RunsPulls(t[CiteLength(t)..]);
    RunsPulls(t);
    CitePulls(t);
    RunsClose(cur, t);
  }

  /** So does one with white space before it. */
  lemma RunsSpaced(cur: string, s: string, w: nat)
    requires w <= |s| && (forall i :: 0 <= i < w ==> IsSpace(s[i])) && CiteLength(s[w..]) > 0
    ensures var t, n := s[w..], CiteLength(s[w..]);
      Runs(cur, s) == Closed(cur) + ([t[1..n - 1]] + Runs("", t[n..]))
  {
    RunsCite(if w > 0 then "" else cur, s[w..]);
    if w > 0 {
      RunsSkip(cur, s, w);
    } else {
      assert s[0..] == s;
    }
  }

  /** The number of the citation at the start. */
  function FirstCite(s: string): string
    requires SpacedCite(s) > 0
  {
    var t := s[SpaceRun(s)..];
    t[1..CiteLength(t) - 1]
  }

  lemma CitesPast(s: string)
    requires SpacedCite(s) > 0
    ensures Cites(s) == [FirstCite(s)] + Cites(s[SpacedCite(s)..])
  {
    var w := SpaceRun(s);
    var t := s[w..];
    assert Cites(s) == Cites(t) by { CitesSkipSpaces(s, w); }
    assert t[CiteLength(t)..] == s[SpacedCite(s)..] by { Behind(s, w, CiteLength(t)); }
    CiteHead(t, CiteLength(t));
  }

  lemma RunsPast(cur: string, s: string)
    requires SpacedCite(s) > 0
    ensures Runs(cur, s) == Closed(cur) + ([FirstCite(s)] + Runs("", s[SpacedCite(s)..]))
  {
    var w := SpaceRun(s);
    RunsSpaced(cur, s, w);
    Behind(s, w, CiteLength(s[w..]));
  }

  /** The numbers left and the citations cut out weigh what the text showed, and more exactly when they glue. */
  lemma {:induction false} StripWeighs(cur: string, s: string)
    ensures var left, shown := Weight(Runs(cur, StripCites(s))) + Weight(Cites(s)), Weight(Runs(cur, s));
      if Glues(s, cur != "") then left > shown else left == shown
    decreases |s|
  {
    if s != "" {
      var k := SpacedCite(s);
      if k > 0 {
        CiteWeighs(cur, s);
        PastCitesFirst(s[k..]);
        StripWeighs("", s[k..]);
      } else {
        CharStep(s);
        CharWeighs(cur, s[0], StripCites(s[1..]));
        CharWeighs(cur, s[0], s[1..]);
        assert s == [s[0]] + s[1..];
        StripWeighs(Opened(cur, s[0]), s[1..]);
      }
    }
  }

  lemma CharWeighs(cur: string, c: char, s: string)
    ensures Weight(Runs(cur, [c] + s))
         == Weight(if cur != "" && IsDigit(c) then [] else Closed(cur)) + Weight(Runs(Opened(cur, c), s))
  {
    RunsStep(cur, c, s);
    WeightAppend(if cur != "" && IsDigit(c) then [] else Closed(cur), Runs(Opened(cur, c), s));
  }

  lemma CiteWeighs(cur: string, s: string)
    requires SpacedCite(s) > 0
    ensures var k := SpacedCite(s);
      var t := StripCites(s[k..]);
      var gain := (Weight(Runs(cur, t)) + Weight(Cites(s)) - Weight(Runs(cur, s)))
                - (Weight(Runs("", t)) + Weight(Cites(s[k..])) - Weight(Runs("", s[k..])));
      if cur != "" && DigitFirst(t) then gain > 0 else gain == 0
  {
    var k := SpacedCite(s);
    var t := StripCites(s[k..]);
    var r := FirstCite(s);
    CitesPast(s);
    RunsPast(cur, s);
    WeightAppend([r], Cites(s[k..]));
    WeightAppend([r], Runs("", s[k..]));
    WeightAppend(Closed(cur), [r] + Runs("", s[k..]));
    if cur != "" {
      OpenWeighs(cur, t);
    }
  }

  lemma CutOne<T>(ended: seq<T>, left: seq<T>, x: T, cut: seq<T>, all: seq<T>)
    requires multiset(left) + multiset(cut) == multiset(all)
    ensures multiset(ended + left) + multiset([x] + cut) == multiset(ended + ([x] + all))
  {
  }

  lemma KeptFirst<T>(ended: seq<T>, left: seq<T>, cut: seq<T>, all: seq<T>)
    requires multiset(left) + multiset(cut) == multiset(all)
    ensures multiset(ended + left) + multiset(cut) == multiset(ended + all)
  {
  }

  /** Without glue every number of the text is left or cut out, as often as it stood there. */
  lemma {:induction false} StripCounts(cur: string, s: string)
    requires !Glues(s, cur != "")
    ensures multiset(Runs(cur, StripCites(s))) + multiset(Cites(s)) == multiset(Runs(cur, s))
    decreases |s|
  {
    if s != "" {
      var k := SpacedCite(s);
      if k > 0 {
        CitesPast(s);
        RunsPast(cur, s);
        PastCitesFirst(s[k..]);
        RunsClose(cur, StripCites(s[k..]));
        StripCounts("", s[k..]);
        CutOne(Closed(cur), Runs("", StripCites(s[k..])), FirstCite(s), Cites(s[k..]), Runs("", s[k..]));
      } else {
        CharStep(s);
        RunsStep(cur, s[0], StripCites(s[1..]));
        RunsStep(cur, s[0], s[1..]);
        assert s == [s[0]] + s[1..];
        StripCounts(Opened(cur, s[0]), s[1..]);
        KeptFirst(if cur != "" && IsDigit(s[0]) then [] else Closed(cur),
                  Runs(Opened(cur, s[0]), StripCites(s[1..])), Cites(s[1..]), Runs(Opened(cur, s[0]), s[1..]));
      }
    }
  }

  /** The numbers left and those cut out are the numbers of the text exactly when nothing is glued. */
  lemma StripExact(s: string)
    ensures multiset(Pulls(StripCites(s))) + multiset(Cites(s)) == multiset(Pulls(s)) <==> !Glues(s, false)
  {
    RunsPulls(s);
    RunsPulls(StripCites(s));
    StripWeighs("", s);
    if Glues(s, false) {
      var parts := Pulls(StripCites(s)) + Cites(s);
      WeightAppend(Pulls(StripCites(s)), Cites(s));
      if multiset(parts) == multiset(Pulls(s)) {
        WeightCounts(parts, Pulls(s));
      }
    } else {
      StripCounts("", s);
    }
  }

  // ---- what an entry shows of its subject ----

  /**
   * The pull numbers of an entry are those of its scope and of its subject, with each citation of the
   * subject replaced by the distinct citations of the text, exactly when no number is glued together.
   */
  lemma SurvivalExact(scope: Option<string>, subject: string, text: string)
    ensures && var shown := Pulls(FormatEntry(scope, subject, ExtractReference(text)));
      multiset(shown) + multiset(Cites(subject))
        == multiset(ScopePulls(scope)) + multiset(Pulls(subject)) + multiset(Dedupe(Cites(text)))
      <==> !Glues(subject, false)
  {
    var left, cut, refs := Pulls(StripCites(subject)), Cites(subject), Dedupe(Cites(text));
    EntryPulls(scope, subject, text);
    BasePulls(scope, subject);
    StripExact(subject);
    SumsAgree(ScopePulls(scope), left, cut, Pulls(subject), refs);
  }

  lemma SumsAgree<T>(a: seq<T>, left: seq<T>, cut: seq<T>, all: seq<T>, refs: seq<T>)
    ensures multiset(a + left + refs) + multiset(cut) == multiset(a) + multiset(all) + multiset(refs)
       <==> multiset(left) + multiset(cut) == multiset(all)
  {
    var whole, others := multiset(left) + multiset(cut), multiset(a) + multiset(refs);
    assert multiset(a + left + refs) + multiset(cut) == others + whole;
    assert multiset(a) + multiset(all) + multiset(refs) == others + multiset(all);
    if others + whole == others + multiset(all) {
      forall x ensures whole[x] == multiset(all)[x] {
        assert (others + whole)[x] == (others + multiset(all))[x];
      }
    }
  }

  /**
   * A citation of the text is shown exactly once exactly when neither the scope nor the subject without
   * its citations shows it; where nothing is glued, the subject then shows it only in citations.
   */
  lemma CitedOnceExact(scope: Option<string>, subject: string, text: string, r: string)
    requires r in Cites(text)
    ensures var once := multiset(Pulls(FormatEntry(scope, subject, ExtractReference(text))))[r] == 1;
      && (once <==> r !in ScopePulls(scope) && r !in Pulls(StripCites(subject)))
      && (!Glues(subject, false) ==>
           (once <==> r !in ScopePulls(scope) && multiset(Pulls(subject))[r] == multiset(Cites(subject))[r]))
  {
    var refs, a, left := Dedupe(Cites(text)), ScopePulls(scope), Pulls(StripCites(subject));
    EntryPulls(scope, subject, text);
    BasePulls(scope, subject);
    OnceIn(refs, r);
    assert multiset(a + left + refs)[r] == multiset(a)[r] + multiset(left)[r] + 1;
    assert (r in a <==> multiset(a)[r] > 0) && (r in left <==> multiset(left)[r] > 0);
    StripExact(subject);
    assert !Glues(subject, false) ==> multiset(Pulls(subject))[r] == multiset(left)[r] + multiset(Cites(subject))[r];
  }

  /** A citation with text behind it. */
  lemma CiteAhead(q: string, rest: string)
    requires IsPull(q)
    ensures var cite := "(" + q + ")" + rest;
      CiteLength(cite) == |q| + 2 && cite[1..|q| + 1] == q && cite[|q| + 2..] == rest
  {
    var cite := "(" + q + ")" + rest;
    AllRun(q[1..]);
    RunStops(q[1..], ')', rest);
    assert cite[2..] == q[1..] + [')'] + rest && cite[1] == q[0];
    assert cite[|q| + 1] == ')';
  }

  lemma OneBlank(cite: string)
    requires cite != "" && !IsSpace(cite[0])
    ensures var tail, n := " " + cite, CiteLength(cite);
      tail[1..] == cite && SpaceRun(tail) == 1 && SpacedCite(tail) == if n > 0 then 1 + n else 0
  {
    var tail := " " + cite;
    assert tail[1..] == cite && SpaceRun(cite) == 0;
  }

  lemma SpacedAhead(q: string, rest: string)
    requires IsPull(q)
    ensures var tail := " " + ("(" + q + ")" + rest);
      SpacedCite(tail) == |q| + 3 && tail[|q| + 3..] == rest && FirstCite(tail) == q
  {
    var cite := "(" + q + ")" + rest;
    CiteAhead(q, rest);
    OneBlank(cite);
    Behind(" " + cite, 1, |q| + 2);
  }

  lemma PlainDigits(ds: string)
    requires AllDigits(ds)
    ensures StripCites(ds) == ds && Cites(ds) == [] && Pulls(ds) == []
  {
    CiteFreePrefix(ds, "");
    assert ds + "" == ds;
    HashlessPulls(ds);
  }

  lemma PullsPast(s: string)
    requires SpacedCite(s) > 0
    ensures Pulls(s) == [FirstCite(s)] + Pulls(s[SpacedCite(s)..])
  {
    RunsPast("", s);
    RunsPulls(s);
    RunsPulls(s[SpacedCite(s)..]);
  }

  lemma StripAhead(r: string, tail: string)
    requires IsPull(r) && SpacedCite(tail) > 0
    ensures StripCites(r + tail) == r + StripCites(tail[SpacedCite(tail)..])
  {
    CiteFreePrefix(r, tail);
  }

  lemma CitesAhead(r: string, tail: string)
    requires IsPull(r) && SpacedCite(tail) > 0
    ensures Cites(r + tail) == [FirstCite(tail)] + Cites(tail[SpacedCite(tail)..])
  {
    CiteFreePrefix(r, tail);
    CitesPast(tail);
  }

  lemma PullsAhead(r: string, tail: string)
    requires IsPull(r) && SpacedCite(tail) > 0 && IsSpace(tail[0])
    ensures Pulls(r + tail) == [r] + ([FirstCite(tail)] + Pulls(tail[SpacedCite(tail)..]))
  {
    PullsPast(tail);
    ClosedBy(r, tail);
  }

  lemma UnscopedEntry(subject: string, left: string, q: string)
    requires StripCites(subject) == left && Cites(subject) == [q]
    ensures Pulls(FormatEntry(None, subject, ExtractReference(subject))) == Pulls(left) + [q]
  {
    EntryPulls(None, subject, subject);
    BasePulls(None, subject);
    DedupeOne(q);
  }

  lemma Pair<T>(x: T, y: T)
    ensures [x] + ([y] + []) == [x, y]
  {
  }

  /** A citation between a number and digits: the entry shows a number that its subject never had. */
  lemma GluedNumber(r: string, q: string, ds: string)
    requires IsPull(r) && IsPull(q) && AllDigits(ds)
    ensures var subject := r + (" " + ("(" + q + ")" + ds));
      && Pulls(subject) == [r, q]
      && Pulls(FormatEntry(None, subject, ExtractReference(subject))) == [r + ds, q]
  {
    var tail := " " + ("(" + q + ")" + ds);
    SpacedAhead(q, ds);
    StripAhead(r, tail);
    CitesAhead(r, tail);
    PullsAhead(r, tail);
    PlainDigits(ds);
    PullItself(r + ds);
    UnscopedEntry(r + tail, r + ds, q);
    Pair(r, q);
  }
}

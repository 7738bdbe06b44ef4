/** scripts/changelog.js: the text of one changelog entry, and the pull requests it cites. */
module CommitEntries {
  import opened Wrappers
  import opened Lists
  import opened Text

  /** Line terminators, which `.` does not match. */
  predicate IsLineEnd(c: char) {
    c == '\n' || c == '\r' || c == '\U{2028}' || c == '\U{2029}'
  }

  function DigitRun(s: string): (n: nat)
    ensures n <= |s|
    ensures forall i :: 0 <= i < n ==> IsDigit(s[i])
    ensures n < |s| ==> !IsDigit(s[n])
  {
    if s != "" && IsDigit(s[0]) then 1 + DigitRun(s[1..]) else 0
  }

  // ---- citations: (#digits) ----

  /** The length of a citation at the very start, or 0. */
  function CiteLength(s: string): (n: nat)
    ensures n <= |s|
  {
    if |s| < 4 || s[0] != '(' || s[1] != '#' then 0 else
      var d := DigitRun(s[2..]);
      if d > 0 && d + 2 < |s| && s[d + 2] == ')' then d + 3 else 0
  }

  /** The `#digits` of every citation, left to right. */
  function Cites(s: string): seq<string>
    decreases |s|
  {
    if s == "" then [] else
      var n := CiteLength(s);
      if n > 0 then [s[1..n - 1]] + Cites(s[n..]) else Cites(s[1..])
  }

  /** `#digits` anywhere, left to right. */
  function Pulls(s: string): seq<string>
    decreases |s|
  {
    if s == "" then [] else
      var d := if s[0] == '#' then DigitRun(s[1..]) else 0;
      if d > 0 then [s[..d + 1]] + Pulls(s[d + 1..]) else Pulls(s[1..])
  }

  function ExtractReference(text: string): Option<string> {
    var refs := Dedupe(Cites(text));
    if refs == [] then None else Some(Join(refs, ", "))
  }

  // ---- cleaning the subject ----

  function SpaceRun(s: string): (w: nat)
    ensures w <= |s|
    ensures forall i :: 0 <= i < w ==> IsSpace(s[i])
  {
    if s != "" && IsSpace(s[0]) then 1 + SpaceRun(s[1..]) else 0
  }

  /** The length of a citation at the start with the white space before it, or 0. */
  function SpacedCite(s: string): (k: nat)
    ensures k <= |s|
  {
    var w := SpaceRun(s);
    var n := CiteLength(s[w..]);
    if n > 0 then w + n else 0
  }

  /** Every citation removed, with the white space before it. */
  function StripCites(s: string): string
    decreases |s|
  {
    if s == "" then ""
    else if SpacedCite(s) > 0 then StripCites(s[SpacedCite(s)..])
    else [s[0]] + StripCites(s[1..])
  }

  /** Runs of two or more white space characters become one blank. */
  function Squeeze(s: string): string
    decreases |s|
  {
    if s == "" then "" else
      var w := SpaceRun(s);
      if w >= 2 then " " + Squeeze(s[w..]) else [s[0]] + Squeeze(s[1..])
  }

  function StripRef(text: string): string {
    Trim(Squeeze(StripCites(text)))
  }

  predicate IsParen(c: char) {
    c == '(' || c == ')'
  }

  /** The last parenthesis, or -1. */
  function LastParen(s: string): (k: int)
    ensures -1 <= k < |s|
    ensures k != -1 ==> IsParen(s[k])
  {
    if s == "" then -1 else if IsParen(s[|s| - 1]) then |s| - 1 else LastParen(s[..|s| - 1])
  }

  datatype Tail = NoTail | Tail(head: string, inner: string)

  /** `^(.*?)\s*\(([^()]*)\)\s*$` on a trimmed text: what stands before and inside its final parenthesis. */
  function FinalParens(text: string): Tail {
    if !EndsWith(text, ')') then NoTail else
      var s := text[..|text| - 1];
      var k := LastParen(s);
      if k == -1 || s[k] == ')' then NoTail else
        var head := TrimEnd(s[..k]);
        if exists c :: c in head && IsLineEnd(c) then NoTail else Tail(head, s[k + 1..])
  }

  predicate IsWordChar(c: char) {
    'a' <= c <= 'z' || 'A' <= c <= 'Z' || '0' <= c <= '9' || c == '_'
  }

  predicate DigitAfter(s: string, i: nat, name: string) {
    MatchesAt(s, name, i) && i + |name| < |s| && IsDigit(s[i + |name|])
  }

  /** An internal handle starts here, and no word or pull number runs into it. */
  predicate HandleAt(s: string, i: nat) {
    && i < |s| && (i == 0 || !(IsWordChar(s[i - 1]) || s[i - 1] == '#'))
    && (|| DigitAfter(s, i, "F") || DigitAfter(s, i, "H") || DigitAfter(s, i, "\U{00A7}")
        || DigitAfter(s, i, "ADR-") || DigitAfter(s, i, "issue/") || DigitAfter(s, i, "issues/"))
  }

  predicate HasHandle(s: string) {
    exists i: nat | i < |s| :: HandleAt(s, i)
  }

  /** The text cites something internal here: a known name and a digit, with nothing running into the name. */
  ghost predicate Internal(before: string, name: string, digit: char) {
    && name in ["F", "H", "\U{00A7}", "ADR-", "issue/", "issues/"] && '0' <= digit <= '9'
    && (before == "" ||
         var c := before[|before| - 1];
         !('a' <= c <= 'z' || 'A' <= c <= 'Z' || '0' <= c <= '9' || c == '_' || c == '#'))
  }

  lemma HandlePlaced(before: string, name: string, digit: char, behind: string)
    requires Internal(before, name, digit)
    ensures HasHandle(before + name + [digit] + behind)
  {
    var s := before + name + [digit] + behind;
    assert s[|before|..|before| + |name|] == name && s[|before| + |name|] == digit;
    assert DigitAfter(s, |before|, name);
    assert HandleAt(s, |before|);
  }

  lemma HandleName(s: string, i: nat) returns (name: string)
    requires HandleAt(s, i)
    ensures name in ["F", "H", "\U{00A7}", "ADR-", "issue/", "issues/"] && DigitAfter(s, i, name)
  {
    name := if DigitAfter(s, i, "F") then "F" else if DigitAfter(s, i, "H") then "H"
            else if DigitAfter(s, i, "\U{00A7}") then "\U{00A7}" else if DigitAfter(s, i, "ADR-") then "ADR-"
            else if DigitAfter(s, i, "issue/") then "issue/" else "issues/";
  }

  lemma AroundDigit(s: string, i: nat, name: string)
    requires DigitAfter(s, i, name)
    ensures var k := i + |name|; s == s[..i] + name + [s[k]] + s[k + 1..]
  {
    var k := i + |name|;
    assert s[i..k] == name;
    assert s == s[..i] + s[i..k] + [s[k]] + s[k + 1..];
  }

  lemma HandleFound(s: string) returns (before: string, name: string, digit: char, behind: string)
    requires HasHandle(s)
    ensures Internal(before, name, digit) && s == before + name + [digit] + behind
  {
    var i: nat :| i < |s| && HandleAt(s, i);
    name := HandleName(s, i);
    AroundDigit(s, i, name);
    before, digit, behind := s[..i], s[i + |name|], s[i + |name| + 1..];
  }

  /** What counts as an internal handle. */
  lemma HandleExact(s: string)
    ensures HasHandle(s) <==> CitesInternal(s)
  {
    if HasHandle(s) {
      var before, name, digit, behind := HandleFound(s);
    }
    if before, name, digit, behind :| Internal(before, name, digit) && s == before + name + [digit] + behind {
      HandlePlaced(before, name, digit, behind);
    }
  }

  /** The text cites something internal. */
  ghost predicate CitesInternal(s: string) {
    exists before, name, digit, behind :: Internal(before, name, digit) && s == before + name + [digit] + behind
  }

  function StripInternalHandle(text: string): string {
    var subject := Trim(text);
    var tail := FinalParens(subject);
    if tail.NoTail? || !HasHandle(tail.inner) then subject else
      var pulls := Pulls(tail.inner);
      if pulls == [] then Trim(tail.head) else Trim(tail.head) + " (" + Join(pulls, ", ") + ")"
  }

  /** The entry without its references. */
  function Base(scope: Option<string>, subject: string): string {
    (if scope.Some? && scope.value != "" then scope.value + ": " else "") + StripInternalHandle(StripRef(subject))
  }

  function FormatEntry(scope: Option<string>, subject: string, ref: Option<string>): string {
    Base(scope, subject) + if ref.Some? && ref.value != "" then " (" + ref.value + ")" else ""
  }

  // ---- characters that cleaning cannot bring in ----

  /** Neither a newline nor a hash. */
  predicate Alien(c: char) {
    c == '\n' || c == '#'
  }

  lemma FreeTail(s: string, c: char, k: nat)
    requires Free(s, c) && k <= |s|
    ensures Free(s[k..], c) && Free(s[..k], c)
  {
  }

  lemma {:induction false} StripCitesFree(s: string, c: char)
    requires Free(s, c)
    ensures Free(StripCites(s), c)
    decreases |s|
  {
    if s != "" {
      var k := if SpacedCite(s) > 0 then SpacedCite(s) else 1;
      FreeTail(s, c, k);
      StripCitesFree(s[k..], c);
      assert s[0] in s[..1];
    }
  }

  lemma {:induction false} SqueezeFree(s: string, c: char)
    requires Free(s, c) && c != ' '
    ensures Free(Squeeze(s), c)
    decreases |s|
  {
    if s != "" {
      var w := SpaceRun(s);
      var k := if w >= 2 then w else 1;
      FreeTail(s, c, k);
      SqueezeFree(s[k..], c);
      assert w < 2 ==> s[0] in s[..1];
    }
  }

  lemma TrimFree(s: string, c: char)
    requires Free(s, c)
    ensures Free(Trim(s), c) && Free(TrimEnd(s), c)
  {
    TrimStartFacts(s);
    TrimEndFacts(TrimStart(s));
    TrimEndFacts(s);
  }

  lemma {:induction false} PullsFree(s: string, c: char)
    requires Free(s, c)
    ensures AllFree(Pulls(s), c)
    decreases |s|
  {
    if s != "" {
      var d := if s[0] == '#' then DigitRun(s[1..]) else 0;
      if d > 0 {
        PullsFree(s[d + 1..], c);
        assert Free(s[..d + 1], c);
      } else {
        PullsFree(s[1..], c);
      }
    }
  }

  lemma {:induction false} JoinFree(xs: seq<string>, c: char)
    requires AllFree(xs, c) && c != ',' && c != ' '
    ensures Free(Join(xs, ", "), c)
    decreases |xs|
  {
    if |xs| >= 1 {
      assert Free(xs[0], c);
      JoinFree(xs[1..], c);
      assert c !in ", ";
    }
  }

  lemma {:induction false} HashlessPulls(s: string)
    requires Free(s, '#')
    ensures Pulls(s) == []
    decreases |s|
  {
    if s != "" {
      assert s[0] in s;
      HashlessPulls(s[1..]);
    }
  }

  /** Cleaning keeps a subject free of newlines, and free of hashes once its citations are gone. */
  lemma CleanFree(subject: string, c: char)
    requires Alien(c) && Free(StripCites(subject), c)
    ensures Free(StripInternalHandle(StripRef(subject)), c)
  {
    var s := StripRef(subject);
    SqueezeFree(StripCites(subject), c);
    TrimFree(Squeeze(StripCites(subject)), c);
    HandleFree(s, c);
  }

  lemma HandleFree(text: string, c: char)
    requires Alien(c) && Free(text, c)
    ensures Free(StripInternalHandle(text), c)
  {
    var subject := Trim(text);
    TrimFree(text, c);
    var tail := FinalParens(subject);
    if tail.Tail? {
      PartsFree(subject, c);
      TrimFree(tail.head, c);
      PullsFree(tail.inner, c);
      JoinFree(Pulls(tail.inner), c);
    }
  }

  lemma PartsFree(subject: string, c: char)
    requires Free(subject, c) && FinalParens(subject).Tail?
    ensures Free(FinalParens(subject).head, c) && Free(FinalParens(subject).inner, c)
  {
    var s := subject[..|subject| - 1];
    var k := LastParen(s);
    TrimFree(s[..k], c);
  }

  // ---- counting hashes ----

  function Hashes(s: string): nat {
    if s == "" then 0 else (if s[0] == '#' then 1 else 0) + Hashes(s[1..])
  }

  lemma {:induction false} HashesAppend(a: string, b: string)
    ensures Hashes(a + b) == Hashes(a) + Hashes(b)
    decreases |a|
  {
    if a == "" {
      assert a + b == b;
    } else {
      assert (a + b)[1..] == a[1..] + b;
      HashesAppend(a[1..], b);
    }
  }

  lemma {:induction false} NoHashes(s: string)
    ensures Hashes(s) == 0 <==> Free(s, '#')
    decreases |s|
  {
    if s != "" {
      NoHashes(s[1..]);
      assert s == [s[0]] + s[1..];
    }
  }

  lemma {:induction false} CitesSkipSpaces(s: string, w: nat)
    requires w <= |s| && forall i :: 0 <= i < w ==> IsSpace(s[i])
    ensures Cites(s) == Cites(s[w..]) && Hashes(s) == Hashes(s[w..])
    decreases w
  {
    if w > 0 {
      assert IsSpace(s[0]) && CiteLength(s) == 0;
      CitesSkipSpaces(s[1..], w - 1);
      assert s[1..][w - 1..] == s[w..];
    }
  }

  lemma CiteHash(s: string)
    requires CiteLength(s) > 0
    ensures Hashes(s[..CiteLength(s)]) == 1
  {
    var n := CiteLength(s);
    var digits := s[2..n];
    assert s[..n] == "(#" + digits;
    HashesAppend("(#", digits);
    NoHashes(digits);
    assert Free(digits, '#') by {
      assert forall i :: 0 <= i < n - 3 ==> IsDigit(s[2..][i]);
      assert forall i :: 0 <= i < |digits| - 1 ==> digits[i] == s[2..][i];
      assert digits[|digits| - 1] == ')';
    }
    assert "(#"[1..] == "#" && "#"[1..] == "";
  }

  lemma CiteHead(t: string, n: nat)
    requires n == CiteLength(t) > 0
    ensures Cites(t) == [t[1..n - 1]] + Cites(t[n..])
  {
  }

  lemma HashHead(t: string, n: nat)
    requires n == CiteLength(t) > 0
    ensures Hashes(t) == 1 + Hashes(t[n..])
  {
    CiteHash(t);
    HashesAppend(t[..n], t[n..]);
    assert t == t[..n] + t[n..];
  }

  /** A citation, with the white space before it, is one hash and one citation and leaves nothing. */
  lemma CiteStep(s: string, k: nat)
    requires k == SpacedCite(s) > 0
    ensures |Cites(s)| == 1 + |Cites(s[k..])| && Hashes(s) == 1 + Hashes(s[k..])
  {
    var w := SpaceRun(s);
    var t, n := s[w..], k - w;
    CitesSkipSpaces(s, w);
    CiteHead(t, n);
    HashHead(t, n);
    assert t[n..] == s[k..];
  }

  lemma CharStep(s: string)
    requires s != "" && SpacedCite(s) == 0
    ensures Cites(s) == Cites(s[1..])
  {
    if SpaceRun(s) == 0 {
      assert s[0..] == s;
    }
  }

  lemma HashesCons(c: char, s: string)
    ensures Hashes([c] + s) == (if c == '#' then 1 else 0) + Hashes(s)
  {
    assert ([c] + s)[1..] == s;
  }

  /** Stripping removes exactly the hashes of the citations. */
  lemma {:induction false} HashesConserved(s: string)
    ensures Hashes(StripCites(s)) + |Cites(s)| == Hashes(s)
    decreases |s|
  {
    if s != "" {
      var k := SpacedCite(s);
      if k > 0 {
        CiteStep(s, k);
        HashesConserved(s[k..]);
      } else {
        CharStep(s);
        HashesConserved(s[1..]);
        HashesCons(s[0], StripCites(s[1..]));
      }
    }
  }

  // ---- what an entry cites ----

  /** A pull number as it is printed. */
  predicate IsPull(s: string) {
    |s| >= 2 && s[0] == '#' && forall i :: 1 <= i < |s| ==> IsDigit(s[i])
  }

  lemma {:induction false} CitesArePulls(s: string)
    ensures forall r :: r in Cites(s) ==> IsPull(r)
    decreases |s|
  {
    if s != "" {
      var n := CiteLength(s);
      if n > 0 {
        CitesArePulls(s[n..]);
        var r := s[1..n - 1];
        assert forall i :: 1 <= i < |r| ==> r[i] == s[2..][i - 1];
      } else {
        CitesArePulls(s[1..]);
      }
    }
  }

  lemma {:induction false} RunStops(a: string, c: char, b: string)
    requires !IsDigit(c)
    ensures DigitRun(a + [c] + b) == DigitRun(a)
    decreases |a|
  {
    if a != "" {
      assert (a + [c] + b)[1..] == a[1..] + [c] + b;
      RunStops(a[1..], c, b);
    }
  }

  /** The length of a pull number at the very start, or 0. */
  function PullLength(s: string): (n: nat)
    ensures n <= |s|
  {
    if s == "" || s[0] != '#' then 0 else
      var d := DigitRun(s[1..]);
      if d > 0 then d + 1 else 0
  }

  lemma PullsStep(s: string)
    requires s != ""
    ensures var n := PullLength(s);
      Pulls(s) == if n > 0 then [s[..n]] + Pulls(s[n..]) else Pulls(s[1..])
  {
  }

  lemma PullStops(a: string, c: char, b: string)
    requires a != "" && !IsDigit(c)
    ensures PullLength(a + [c] + b) == PullLength(a)
  {
    assert (a + [c] + b)[1..] == a[1..] + [c] + b;
    RunStops(a[1..], c, b);
  }

  lemma Slices(a: string, c: char, b: string, k: nat)
    requires k <= |a|
    ensures (a + [c] + b)[k..] == a[k..] + [c] + b && (a + [c] + b)[..k] == a[..k]
  {
  }

  /** A character that is in no pull number separates them. */
  lemma {:induction false} PullsSeparate(a: string, c: char, b: string)
    requires !IsDigit(c) && c != '#'
    ensures Pulls(a + [c] + b) == Pulls(a) + Pulls(b)
    decreases |a|
  {
    var s := a + [c] + b;
    PullsStep(s);
    if a == "" {
      assert s[1..] == b;
    } else {
      PullStops(a, c, b);
      PullsStep(a);
      var n := PullLength(a);
      var k := if n > 0 then n else 1;
      Slices(a, c, b, k);
      PullsSeparate(a[k..], c, b);
      if n > 0 {
        Associative([a[..k]], Pulls(a[k..]), Pulls(b));
      }
    }
  }

  lemma PullItself(r: string)
    requires IsPull(r)
    ensures Pulls(r) == [r]
  {
    AllRun(r[1..]);
    assert r[..|r|] == r && r[|r|..] == "";
  }

  lemma {:induction false} AllRun(s: string)
    requires forall i :: 0 <= i < |s| ==> IsDigit(s[i])
    ensures DigitRun(s) == |s|
    decreases |s|
  {
    if s != "" {
      AllRun(s[1..]);
    }
  }

  lemma {:induction false} PullsOfList(rs: seq<string>)
    requires forall r :: r in rs ==> IsPull(r)
    ensures Pulls(Join(rs, ", ") + ")") == rs
    decreases |rs|
  {
    if rs == [] {
      PullsSeparate("", ')', "");
      assert "" + [')'] + "" == ")";
    } else {
      assert rs[0] in rs;
      PullItself(rs[0]);
      if |rs| == 1 {
        PullsSeparate(rs[0], ')', "");
        assert rs[0] + [')'] + "" == rs[0] + ")";
      } else {
        var rest := Join(rs[1..], ", ") + ")";
        PullsOfList(rs[1..]);
        PullsSeparate(rs[0], ',', " " + rest);
        PullsSeparate("", ' ', rest);
        Listing(rs[0], Join(rs[1..], ", "));
      }
    }
  }

  lemma Listing(first: string, others: string)
    ensures "" + [' '] + (others + ")") == " " + (others + ")")
    ensures first + ", " + others + ")" == first + [','] + (" " + (others + ")"))
  {
  }

  lemma BracketedPulls(base: string, rs: seq<string>)
    requires forall r :: r in rs ==> IsPull(r)
    ensures Pulls(base + " (" + Join(rs, ", ") + ")") == Pulls(base) + rs
  {
    var list := Join(rs, ", ") + ")";
    PullsOfList(rs);
    PullsSeparate(base, ' ', "(" + list);
    PullsSeparate("", '(', list);
    Bracketing(base, Join(rs, ", "));
  }

  lemma Bracketing(base: string, list: string)
    ensures "" + ['('] + (list + ")") == "(" + (list + ")")
    ensures base + " (" + list + ")" == base + [' '] + ("(" + (list + ")"))
  {
  }

  lemma JoinedNotEmpty(rs: seq<string>)
    requires rs != [] && forall r :: r in rs ==> IsPull(r)
    ensures Join(rs, ", ") != ""
  {
    assert rs[0] in rs;
  }

  /** An entry shows what its cleaned subject still shows, and then each distinct citation of the text once. */
  lemma EntryPulls(scope: Option<string>, subject: string, text: string)
    ensures Pulls(FormatEntry(scope, subject, ExtractReference(text)))
      == Pulls(Base(scope, subject)) + Dedupe(Cites(text))
    ensures NoRepeats(Dedupe(Cites(text)))
  {
    var refs, base := Dedupe(Cites(text)), Base(scope, subject);
    DedupeOnce(Cites(text));
    CitesArePulls(text);
    if refs == [] {
      assert base + "" == base;
    } else {
      JoinedNotEmpty(refs);
      BracketedPulls(base, refs);
      Bracketed(base, Join(refs, ", "));
    }
  }

  lemma Bracketed(base: string, list: string)
    ensures base + (" (" + list + ")") == base + " (" + list + ")"
  {
  }

  /** The scope shows no hash, and every hash of the subject belongs to a citation. */
  predicate OnlyCites(scope: Option<string>, subject: string) {
    (scope.Some? ==> Free(scope.value, '#')) && Hashes(subject) == |Cites(subject)|
  }

  lemma HashlessBase(scope: Option<string>, subject: string)
    requires OnlyCites(scope, subject)
    ensures Pulls(Base(scope, subject)) == []
  {
    HashesConserved(subject);
    NoHashes(StripCites(subject));
    CleanFree(subject, '#');
    HashlessPulls(Base(scope, subject));
  }

  /** Then the entry shows exactly the distinct citations of its subject: each once, in order, and nothing else. */
  lemma EachCitedOnce(scope: Option<string>, subject: string)
    requires OnlyCites(scope, subject)
    ensures Pulls(FormatEntry(scope, subject, ExtractReference(subject))) == Dedupe(Cites(subject))
    ensures NoRepeats(Dedupe(Cites(subject)))
  {
    HashlessBase(scope, subject);
    EntryPulls(scope, subject, subject);
    assert [] + Dedupe(Cites(subject)) == Dedupe(Cites(subject));
  }

  lemma {:induction false} OnceIn(xs: seq<string>, x: string)
    requires NoRepeats(xs) && x in xs
    ensures multiset(xs)[x] == 1
    decreases |xs|
  {
    var n := |xs| - 1;
    assert xs == xs[..n] + [xs[n]];
    if xs[n] == x {
      assert x !in xs[..n];
    } else {
      OnceIn(xs[..n], x);
    }
  }

  /** An entry stays on one line when its subject and scope do. */
  lemma EntryOneLine(scope: Option<string>, subject: string, text: string)
    requires (scope.Some? ==> Free(scope.value, '\n')) && Free(subject, '\n')
    ensures Free(FormatEntry(scope, subject, ExtractReference(text)), '\n')
  {
    StripCitesFree(subject, '\n');
    CleanFree(subject, '\n');
    CitesArePulls(text);
    var refs := Dedupe(Cites(text));
    forall i | 0 <= i < |refs| ensures Free(refs[i], '\n') { assert refs[i] in refs; }
    JoinFree(refs, '\n');
  }

  // ---- subjects that are not cited cleanly ----

  /** No citation starts in the text, whatever follows it. */
  predicate CiteFree(x: string) {
    && x != "" && !IsSpace(x[|x| - 1]) && x[|x| - 1] != '('
    && forall i :: 0 <= i < |x| - 1 && x[i] == '(' ==> x[i + 1] != '#'
  }

  lemma SpacesInside(x: string, tail: string)
    requires CiteFree(x)
    ensures SpaceRun(x + tail) < |x|
  {
    var s := x + tail;
    assert s[|x| - 1] == x[|x| - 1];
  }

  lemma NoSpacedCite(x: string, tail: string)
    requires CiteFree(x)
    ensures SpacedCite(x + tail) == 0 && CiteLength(x + tail) == 0
  {
    var s := x + tail;
    SpacesInside(x, tail);
    var w := SpaceRun(s);
    assert s[w..] == x[w..] + tail;
    assert s[w] == x[w];
    assert w + 1 < |x| ==> s[w + 1] == x[w + 1];
    assert s[0] == x[0] && (1 < |x| ==> s[1] == x[1]);
  }

  lemma CiteFreeTail(x: string)
    requires CiteFree(x) && |x| > 1
    ensures CiteFree(x[1..])
  {
    var t := x[1..];
    forall i | 0 <= i < |t| - 1 && t[i] == '(' ensures t[i + 1] != '#' {
      assert x[i + 1] == '(';
    }
  }

  /** Text in which no citation starts is kept, and cites nothing. */
  lemma {:induction false} CiteFreePrefix(x: string, tail: string)
    requires CiteFree(x)
    ensures StripCites(x + tail) == x + StripCites(tail) && Cites(x + tail) == Cites(tail)
    decreases |x|
  {
    NoSpacedCite(x, tail);
    var s, t := x + tail, x[1..];
    assert s[1..] == t + tail && s[0] == x[0] && x == [x[0]] + t;
    if |x| > 1 {
      CiteFreeTail(x);
      CiteFreePrefix(t, tail);
      Associative([x[0]], t, StripCites(tail));
    } else {
      assert t + tail == tail;
    }
  }

  ghost predicate SingleSpaced(s: string) {
    forall i :: 0 <= i < |s| - 1 && IsSpace(s[i]) ==> !IsSpace(s[i + 1])
  }

  lemma SingleSpacedTail(s: string)
    requires SingleSpaced(s) && s != ""
    ensures SingleSpaced(s[1..]) && SpaceRun(s) < 2
  {
    var t := s[1..];
    forall i | 0 <= i < |t| - 1 && IsSpace(t[i]) ensures !IsSpace(t[i + 1]) {
      assert IsSpace(s[i + 1]);
    }
  }

  lemma {:induction false} SqueezeKeeps(s: string)
    requires SingleSpaced(s)
    ensures Squeeze(s) == s
    decreases |s|
  {
    if s != "" {
      SingleSpacedTail(s);
      SqueezeKeeps(s[1..]);
      assert s == [s[0]] + s[1..];
    }
  }

  /** The characters that are no white space. */
  function Visible(s: string): string {
    if s == "" then "" else (if IsSpace(s[0]) then "" else [s[0]]) + Visible(s[1..])
  }

  lemma {:induction false} BlanksInvisible(s: string, w: nat)
    requires w <= |s| && forall i :: 0 <= i < w ==> IsSpace(s[i])
    ensures Visible(s) == Visible(s[w..])
    decreases w
  {
    if w > 0 {
      BlanksInvisible(s[1..], w - 1);
      assert s[1..][w - 1..] == s[w..];
    }
  }

  lemma {:induction false} RunEnds(s: string)
    ensures SpaceRun(s) < |s| ==> !IsSpace(s[SpaceRun(s)])
    decreases |s|
  {
    if s != "" && IsSpace(s[0]) {
      RunEnds(s[1..]);
    }
  }

  /** Squeezing leaves no two white space characters side by side, and everything else as it stands. */
  lemma {:induction false} SqueezeExact(s: string)
    ensures SingleSpaced(Squeeze(s)) && Visible(Squeeze(s)) == Visible(s)
    ensures s != "" ==> Squeeze(s) != "" && (IsSpace(Squeeze(s)[0]) <==> IsSpace(s[0]))
    decreases |s|
  {
    if s != "" {
      var w := SpaceRun(s);
      RunEnds(s);
      if w >= 2 {
        BlanksInvisible(s, w);
        SqueezeExact(s[w..]);
        SpacedCons(' ', Squeeze(s[w..]));
      } else {
        SqueezeExact(s[1..]);
        SpacedCons(s[0], Squeeze(s[1..]));
      }
    }
  }

  lemma SpacedCons(c: char, t: string)
    requires SingleSpaced(t) && (IsSpace(c) && t != "" ==> !IsSpace(t[0]))
    ensures SingleSpaced([c] + t)
    ensures Visible([c] + t) == (if IsSpace(c) then "" else [c]) + Visible(t)
  {
    assert ([c] + t)[1..] == t;
  }

  /** A subject freed of its citations is tidy: trimmed and without runs of white space. */
  lemma StripRefTidy(text: string)
    ensures var clean := StripRef(text);
      SingleSpaced(clean) && Visible(clean) == Visible(StripCites(text))
      && (clean != "" ==> !IsSpace(clean[0]) && !IsSpace(clean[|clean| - 1]))
  {
    var t := Squeeze(StripCites(text));
    SqueezeExact(StripCites(text));
    TrimStartFacts(t);
    TrimEndFacts(TrimStart(t));
    TrimStartVisible(t);
    TrimEndVisible(TrimStart(t));
  }

  lemma {:induction false} TrimStartVisible(t: string)
    ensures Visible(TrimStart(t)) == Visible(t)
    decreases |t|
  {
    if t != "" && IsSpace(t[0]) {
      TrimStartVisible(t[1..]);
    }
  }

  lemma {:induction false} TrimEndVisible(t: string)
    ensures Visible(TrimEnd(t)) == Visible(t)
    decreases |t|
  {
    if t != "" && IsSpace(t[|t| - 1]) {
      var front := t[..|t| - 1];
      TrimEndVisible(front);
      assert t == front + [t[|t| - 1]];
      VisibleAppend(front, [t[|t| - 1]]);
      OneInvisible(t[|t| - 1], Visible(front));
    }
  }

  lemma OneInvisible(c: char, seen: string)
    requires IsSpace(c)
    ensures seen + Visible([c]) == seen
  {
    assert [c][1..] == "";
  }

  lemma {:induction false} VisibleAppend(a: string, b: string)
    ensures Visible(a + b) == Visible(a) + Visible(b)
    decreases |a|
  {
    if a == "" {
      assert a + b == b;
    } else {
      assert (a + b)[1..] == a[1..] + b;
      VisibleAppend(a[1..], b);
    }
  }

  /** A tidy subject keeps everything but the citation at its end. */
  lemma TidySubject(x: string, tail: string)
    requires CiteFree(x) && SingleSpaced(x) && !IsSpace(x[0])
    requires tail == "" || SpacedCite(tail) == |tail|
    ensures StripRef(x + tail) == x
    ensures Cites(x + tail) == Cites(tail)
  {
    CiteFreePrefix(x, tail);
    assert StripCites(tail) == "" by { assert tail[|tail|..] == ""; }
    assert x + "" == x;
    SqueezeKeeps(x);
    TrimFixes(x);
  }

  lemma {:induction false} LastParenIs(s: string, k: nat)
    requires k < |s| && IsParen(s[k]) && forall i :: k < i < |s| ==> !IsParen(s[i])
    ensures LastParen(s) == k
    decreases |s|
  {
    if k < |s| - 1 {
      LastParenIs(s[..|s| - 1], k);
    }
  }

  lemma FinalParensOf(head: string, inner: string)
    requires forall i :: 0 <= i < |inner| ==> !IsParen(inner[i])
    requires forall c :: c in TrimEnd(head) ==> !IsLineEnd(c)
    ensures FinalParens(head + "(" + inner + ")") == Tail(TrimEnd(head), inner)
  {
    var text := head + "(" + inner + ")";
    var s := text[..|text| - 1];
    assert s == head + "(" + inner;
    LastParenIs(s, |head|);
    assert s[..|head|] == head && s[|head| + 1..] == inner;
  }

  lemma TailTrimmed(head: string, tail: string)
    requires head != "" && !IsSpace(head[0])
    ensures Trim(head + tail + ")") == head + tail + ")"
  {
    var text := head + tail + ")";
    assert text[0] == head[0] && text[|text| - 1] == ')';
    TrimFixes(text);
  }

  lemma TailStands(head: string, inner: string)
    requires head != "" && !IsSpace(head[|head| - 1]) && forall c :: c in head ==> !IsLineEnd(c)
    requires '(' !in inner && ')' !in inner
    ensures FinalParens(head + " " + "(" + inner + ")") == Tail(head, inner)
  {
    TrimEndFixes(head, " ");
    FinalParensOf(head + " ", inner);
  }

  /** A subject that ends in a parenthesis loses it when it cites something internal, except its pull numbers. */
  lemma TailCleaned(head: string, inner: string)
    requires head != "" && Trim(head) == head && forall c :: c in head ==> !IsLineEnd(c)
    requires '(' !in inner && ')' !in inner
    ensures var text := head + " " + "(" + inner + ")";
      StripInternalHandle(text)
      == if !CitesInternal(inner) then text
         else if Pulls(inner) == [] then head else head + " (" + Join(Pulls(inner), ", ") + ")"
  {
    TrimmedEnds(head);
    TailStands(head, inner);
    TailTrimmed(head, " " + ("(" + inner));
    assert head + (" " + ("(" + inner)) + ")" == head + " " + "(" + inner + ")";
    HandleExact(inner);
  }

  predicate Word(s: string) {
    s != "" && forall i :: 0 <= i < |s| ==> IsWordChar(s[i])
  }

  lemma WordCharPlain(c: char)
    requires IsWordChar(c)
    ensures !IsSpace(c) && !IsParen(c) && c != '#' && !IsLineEnd(c)
  {
  }

  lemma WordPlain(s: string)
    requires Word(s)
    ensures forall i :: 0 <= i < |s| ==> !IsSpace(s[i]) && !IsParen(s[i]) && s[i] != '#' && !IsLineEnd(s[i])
    ensures Free(s, '#') && Trim(s) == s && TrimEnd(s) == s
  {
    forall i | 0 <= i < |s| ensures !IsSpace(s[i]) && !IsParen(s[i]) && s[i] != '#' && !IsLineEnd(s[i]) {
      WordCharPlain(s[i]);
    }
    TrimFixes(s);
  }

  /** A subject that is only an internal handle is cleaned away. */
  lemma OnlyHandle(handle: string)
    requires Word(handle) && HandleAt(handle, 0)
    ensures StripInternalHandle(StripRef("(" + handle + ")")) == ""
  {
    var x := "(" + handle + ")";
    WordPlain(handle);
    HandleTidyAlone(handle);
    assert x + "" == x;
    TidySubject(x, "");
    TrimFixes(x);
    FinalParensOf("", handle);
    assert "" + "(" + handle + ")" == x;
    HashlessPulls(handle);
  }

  lemma HandleTidyAlone(handle: string)
    requires Word(handle)
    ensures var x := "(" + handle + ")"; CiteFree(x) && SingleSpaced(x) && !IsSpace(x[0])
  {
    var x := "(" + handle + ")";
    WordPlain(handle);
    assert x[1] == handle[0];
    assert forall i :: 1 <= i < |x| - 1 ==> x[i] == handle[i - 1];
  }

  lemma PullPlain(r: string)
    requires IsPull(r)
    ensures forall i :: 0 <= i < |r| ==> !IsSpace(r[i]) && !IsParen(r[i]) && !IsLineEnd(r[i])
  {
  }

  /** A final parenthesis with a handle and a pull number keeps the number. */
  lemma CleanedHandle(head: string, handle: string, r: string)
    requires Word(head) && Word(handle) && IsPull(r) && HandleAt(handle + " " + r, 0)
    ensures StripInternalHandle(head + " " + "(" + (handle + " " + r) + ")") == head + " (" + r + ")"
  {
    var inner := handle + " " + r;
    var x := head + " " + "(" + inner + ")";
    WordPlain(head);
    WordPlain(handle);
    PullPlain(r);
    assert x[0] == head[0] && x[|x| - 1] == ')';
    TrimFixes(x);
    TrimEndFixes(head, " ");
    assert forall i :: 0 <= i < |inner| ==> !IsParen(inner[i]);
    FinalParensOf(head + " ", inner);
    PullsSeparate(handle, ' ', r);
    HashlessPulls(handle);
    PullItself(r);
    assert handle + [' '] + r == inner;
  }

  /** A subject whose handle carries the pull number that it also cites shows the number twice. */
  lemma CitedTwice(head: string, handle: string, r: string)
    requires Word(head) && Word(handle) && IsPull(r) && HandleAt(handle + " " + r, 0)
    ensures var subject := head + " " + "(" + (handle + " " + r) + ")" + (" (" + r + ")");
      && Dedupe(Cites(subject)) == [r]
      && Pulls(FormatEntry(None, subject, ExtractReference(subject))) == [r, r]
  {
    var x, tail := head + " " + "(" + (handle + " " + r) + ")", " (" + r + ")";
    CleanedHandle(head, handle, r);
    CiteTail(r);
    HandleTidy(head, handle, r);
    TidySubject(x, tail);
    EntryPulls(None, x + tail, x + tail);
    WordPlain(head);
    HashlessPulls(head);
    BracketedPulls(head, [r]);
    assert Base(None, x + tail) == head + " (" + r + ")";
    assert [] + [r] + [r] == [r, r];
  }

  lemma HandleTidy(head: string, handle: string, r: string)
    requires Word(head) && Word(handle) && IsPull(r)
    ensures var x := head + " " + "(" + (handle + " " + r) + ")"; CiteFree(x) && SingleSpaced(x) && !IsSpace(x[0])
  {
    var x := head + " " + "(" + (handle + " " + r) + ")";
    WordPlain(head);
    WordPlain(handle);
    PullPlain(r);
    var a, b := |head|, |head| + 2 + |handle|;
    assert x[a] == ' ' && x[a + 1] == '(' && x[b] == ' ' && x[a + 2] == handle[0] && x[b + 1] == r[0]
      && x[|x| - 1] == ')';
    assert forall i :: 0 <= i < |x| && i != a && i != b ==> !IsSpace(x[i]);
    assert forall i :: 0 <= i < |x| && x[i] == '(' ==> i == a + 1;
  }

  lemma CiteTail(r: string)
    requires IsPull(r)
    ensures var tail := " (" + r + ")"; SpacedCite(tail) == |tail| && Cites(tail) == [r] && Dedupe(Cites(tail)) == [r]
  {
    var tail, cite := " (" + r + ")", "(" + r + ")";
    assert tail[1..] == cite;
    CiteOf(r);
    assert SpaceRun(cite) == 0;
    assert [r][..0] == [];
  }

  lemma CiteOf(r: string)
    requires IsPull(r)
    ensures var cite := "(" + r + ")"; CiteLength(cite) == |cite| && Cites(cite) == [r]
  {
    var cite := "(" + r + ")";
    var digits := r[1..];
    assert cite[2..] == digits + [')'] + "";
    AllRun(digits);
    RunStops(digits, ')', "");
    assert cite[1] == '#' && cite[|cite| - 1] == ')';
    assert cite[1..|cite| - 1] == r && cite[|cite|..] == "";
  }
}

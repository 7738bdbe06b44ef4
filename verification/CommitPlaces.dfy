/** scripts/changelog.js: which commits are listed, and in which group, told from their subject and body alone. */
module CommitPlaces {
  import opened Wrappers
  import opened Lists
  import opened Text
  import Changelog
  import opened CommitEntries
  import opened CommitGroups
  import opened GitLog

  // ---- versions ----

  /** `x.y.z` in digits, with or without a leading `v`. */
  ghost predicate VersionText(s: string) {
    exists v, x, y, z :: (v == "" || v == "v") && AllDigits(x) && AllDigits(y) && AllDigits(z)
      && s == v + (x + "." + y + "." + z)
  }

  lemma {:induction false} JoinsBack(s: string)
    ensures Join(SplitOn(s, "."), ".") == s
    decreases |s|
  {
    var i := IndexFrom(s, ".", 0);
    IndexFacts(s, ".", 0);
    if i != -1 {
      JoinsBack(s[i + 1..]);
      assert s[i..i + 1] == ".";
      var rest := SplitOn(s[i + 1..], ".");
      assert ([s[..i]] + rest)[1..] == rest;
      assert s == s[..i] + "." + s[i + 1..];
    }
  }

  lemma DigitsFree(x: string, c: char)
    requires AllDigits(x) && !IsDigit(c)
    ensures Free(x, c)
  {
  }

  lemma ThreeJoined(x: string, y: string, z: string)
    ensures Join([x, y, z], ".") == x + "." + y + "." + z
  {
    assert [x, y, z][1..] == [y, z] && [y, z][1..] == [z];
    assert Join([y, z], ".") == y + "." + z;
    assert x + "." + (y + "." + z) == x + "." + y + "." + z;
  }

  lemma NumbersSplit(x: string, y: string, z: string)
    requires AllDigits(x) && AllDigits(y) && AllDigits(z)
    ensures SplitOn(x + "." + y + "." + z, ".") == [x, y, z]
  {
    DigitsFree(x, '.');
    DigitsFree(y, '.');
    DigitsFree(z, '.');
    ThreeJoined(x, y, z);
    SplitInvertsJoin([x, y, z], '.');
    assert ['.'] == ".";
  }

  lemma VersionExact(s: string)
    ensures IsVersion(s) <==> VersionText(s)
  {
    var t := DropPrefix(s, "v");
    if IsVersion(s) {
      var parts := SplitOn(t, ".");
      JoinsBack(t);
      assert parts == [parts[0], parts[1], parts[2]];
      ThreeJoined(parts[0], parts[1], parts[2]);
      var v := if StartsWith(s, "v") then "v" else "";
      assert s == v + t;
      assert VersionText(s);
    }
    if VersionText(s) {
      var v, x, y, z :| (v == "" || v == "v") && AllDigits(x) && AllDigits(y) && AllDigits(z)
        && s == v + (x + "." + y + "." + z);
      NumbersSplit(x, y, z);
      var numbers := x + "." + y + "." + z;
      assert numbers[0] == x[0] && IsDigit(x[0]);
      assert v == "" ==> s == numbers;
      assert v == "v" ==> s[1..] == numbers;
    }
  }

  // ---- release bookkeeping ----

  const BUMP := "bump version to "

  /** What the release-cut flow writes behind the colon: a version, bare or announced. */
  ghost predicate CutMessage(s: string) {
    VersionText(s) || (BUMP <= s && VersionText(s[|BUMP|..]))
  }

  lemma VersionStart(s: string)
    requires VersionText(s)
    ensures s != "" && s[0] != 'b'
  {
    var v, x, y, z :| (v == "" || v == "v") && AllDigits(x) && AllDigits(y) && AllDigits(z)
      && s == v + (x + "." + y + "." + z);
    assert s[0] == if v == "" then x[0] else 'v';
  }

  lemma CutExact(s: string)
    ensures IsVersion(DropPrefix(s, BUMP)) <==> CutMessage(s)
  {
    VersionExact(DropPrefix(s, BUMP));
    if VersionText(s) {
      VersionStart(s);
      assert BUMP[0] == 'b';
    }
  }

  /** An optional scope in parentheses. */
  ghost predicate ScopeText(s: string) {
    s == "" || exists x :: s == "(" + x + ")" && Free(x, ')')
  }

  /** `chore: 1.2.3`, `chore(scope): bump version to v1.2.3` and the like, in upper or lower case. */
  ghost predicate ReleaseCut(subject: string) {
    exists scope, message :: ScopeText(scope) && CutMessage(message)
      && Lower(subject) == "chore" + (scope + (": " + message))
  }

  lemma ScopeSkipped(scope: string, rest: string)
    requires ScopeText(scope) && rest != "" && rest[0] != '('
    ensures BehindScope(scope + rest) == rest
  {
    var t := scope + rest;
    if scope == "" {
      assert t == rest && !("(" <= t);
    } else {
      var x :| scope == "(" + x + ")" && Free(x, ')');
      var k := |x| + 1;
      assert t[0] == '(' && t[k] == ')';
      assert forall j :: 1 <= j < k ==> t[j] == x[j - 1] && x[j - 1] in x;
      assert FirstOf(t, ')') == k;
      assert t[k + 1..] == rest && "(" <= t;
    }
  }

  lemma ScopeFound(t: string)
    requires BehindScope(t) != ""
    ensures ScopeText(t[..|t| - |BehindScope(t)|]) && t == t[..|t| - |BehindScope(t)|] + BehindScope(t)
  {
    var rest := BehindScope(t);
    var n := |t| - |rest|;
    if StartsWith(t, "(") {
      var x := t[1..n - 1];
      assert t[0] == '(' && t[..n] == "(" + x + ")";
      assert Free(x, ')');
    } else {
      assert t[..0] == "";
    }
  }

  lemma CutRead(s: string, scope: string, message: string)
    requires ScopeText(scope) && CutMessage(message) && s == "chore" + (scope + (": " + message))
    ensures StartsWith(s, "chore") && BehindScope(s[5..]) == ": " + message
  {
    ScopeSkipped(scope, ": " + message);
    assert s[5..] == scope + (": " + message);
  }

  lemma CutFound(s: string)
    requires StartsWith(s, "chore") && StartsWith(BehindScope(s[5..]), ": ")
    ensures var t, rest := s[5..], BehindScope(s[5..]);
      var scope := t[..|t| - |rest|];
      ScopeText(scope) && s == "chore" + (scope + (": " + rest[2..]))
  {
    var t := s[5..];
    var rest := BehindScope(t);
    ScopeFound(t);
    assert rest == ": " + rest[2..];
    assert s == "chore" + t;
  }

  lemma CutIsBookkeeping(subject: string, scope: string, message: string)
    requires ScopeText(scope) && CutMessage(message) && Lower(subject) == "chore" + (scope + (": " + message))
    ensures IsBookkeeping(subject)
  {
    CutRead(Lower(subject), scope, message);
    CutExact(message);
    assert (": " + message)[2..] == message;
  }

  lemma BookkeepingIsCut(subject: string)
    requires IsBookkeeping(subject)
    ensures ReleaseCut(subject)
  {
    var s := Lower(subject);
    CutFound(s);
    CutExact(BehindScope(s[5..])[2..]);
  }

  /** Bookkeeping is exactly what the release-cut flow writes. */
  lemma BookkeepingExact(subject: string)
    ensures IsBookkeeping(subject) <==> ReleaseCut(subject)
  {
    if IsBookkeeping(subject) {
      BookkeepingIsCut(subject);
    }
    if ReleaseCut(subject) {
      var scope, message :| ScopeText(scope) && CutMessage(message)
        && Lower(subject) == "chore" + (scope + (": " + message));
      CutIsBookkeeping(subject, scope, message);
    }
  }

  // ---- breaking footers ----

  /** A line of the body that announces a breaking change. */
  predicate FooterLine(body: string, i: nat) {
    && i <= |body| && (i == 0 || body[i - 1] in {'\n', '\r', '\U{2028}', '\U{2029}'})
    && ("BREAKING CHANGE:" <= body[i..] || "BREAKING-CHANGE:" <= body[i..])
  }

  lemma MatchIsPrefix(s: string, p: string, i: nat)
    requires i <= |s|
    ensures MatchesAt(s, p, i) <==> p <= s[i..]
  {
    if i + |p| <= |s| {
      assert s[i..i + |p|] == s[i..][..|p|];
    }
  }

  lemma FooterExact(body: string)
    ensures HasBreakingFooter(body) <==> exists i: nat :: FooterLine(body, i)
  {
    forall i: nat | i <= |body| ensures FooterAt(body, i) <==> FooterLine(body, i) {
      MatchIsPrefix(body, "BREAKING CHANGE:", i);
      MatchIsPrefix(body, "BREAKING-CHANGE:", i);
    }
    if i: nat :| FooterLine(body, i) {
      assert FooterAt(body, i) && i < |body|;
    }
  }

  // ---- the subject and its parts ----

  predicate OneLine(s: string) {
    forall c :: c in s ==> !IsLineEnd(c)
  }

  /** What follows the colon is white space and then one line of text, which trimmed is this message. */
  ghost predicate Says(rest: string, message: string) {
    exists k :: 0 <= k < |rest| && (forall i :: 0 <= i < k ==> IsSpace(rest[i]))
      && OneLine(rest[k..]) && message == Trim(rest[k..])
  }

  lemma {:induction false} TrimStartSkips(s: string, k: nat)
    requires k <= |s| && forall i :: 0 <= i < k ==> IsSpace(s[i])
    ensures TrimStart(s) == TrimStart(s[k..])
    decreases k
  {
    if k > 0 {
      TrimStartSkips(s[1..], k - 1);
      assert s[1..][k - 1..] == s[k..];
    } else {
      assert s[0..] == s;
    }
  }

  lemma TrimTrimmed(s: string)
    ensures Trim(TrimStart(s)) == Trim(s)
  {
    TrimStartFacts(s);
    assert TrimStart(TrimStart(s)) == TrimStart(s);
  }

  lemma SaysRead(rest: string, message: string)
    requires Says(rest, message)
    ensures MessageOf(rest) == Some(message)
  {
    var k :| 0 <= k < |rest| && (forall i :: 0 <= i < k ==> IsSpace(rest[i]))
      && OneLine(rest[k..]) && message == Trim(rest[k..]);
    var line := rest[k..];
    TrimStartSkips(rest, k);
    TrimStartFacts(line);
    TrimTrimmed(line);
    assert line[|line| - 1] == rest[|rest| - 1] && line[|line| - 1] in line;
    assert forall c :: c in TrimStart(line) ==> c in line;
  }

  lemma ReadSays(rest: string)
    requires MessageOf(rest).Some?
    ensures Says(rest, MessageOf(rest).value)
  {
    var t := TrimStart(rest);
    TrimStartFacts(rest);
    if t == "" {
      var k := |rest| - 1;
      assert rest[k..] == [rest[k]] && IsSpace(rest[k]);
      assert TrimStart(rest[k..]) == "" by { assert [rest[k]][1..] == ""; }
      assert OneLine(rest[k..]);
    } else {
      assert rest[|rest| - |t|..] == t;
    }
  }

  /** The message is read exactly as it is said. */
  lemma MessageExact(rest: string, message: string)
    ensures MessageOf(rest) == Some(message) <==> Says(rest, message)
  {
    if Says(rest, message) {
      SaysRead(rest, message);
    }
    if MessageOf(rest) == Some(message) {
      ReadSays(rest);
    }
  }

  /** The subject is written from these parts. */
  ghost predicate Conventional(subject: string, kind: string, scope: Option<string>, bang: bool, rest: string) {
    IsKind(kind) && IsScope(scope) && subject == Written(kind, scope, bang, rest) && exists m :: Says(rest, m)
  }

  lemma ScopeParts(s: string)
    ensures var (scope, rest) := ScopeOf(s);
      IsScope(scope) && s == (if scope.Some? then "(" + scope.value + ")" else "") + rest
  {
    var (scope, rest) := ScopeOf(s);
    var i := FirstOf(s, ')');
    if scope.Some? {
      assert s[1..i] == scope.value && s == "(" + s[1..i] + ")" + s[i + 1..];
      assert Free(scope.value, ')');
    }
  }

  lemma MarkParts(kind: string, scope: Option<string>, s: string, body: string) returns (bang: bool, rest: string)
    requires (if StartsWith(s, "!") then ParseAfterBang(kind, scope, true, s[1..], body)
              else ParseAfterBang(kind, scope, HasBreakingFooter(body), s, body)).Some?
    ensures s == (if bang then "!" else "") + (":" + rest) && exists m :: Says(rest, m)
  {
    bang := StartsWith(s, "!");
    var marked := if bang then s[1..] else s;
    rest := marked[1..];
    ReadSays(rest);
    assert marked == ":" + rest && s == (if bang then "!" else "") + marked;
  }

  /** What is parsed by its parts is written from them. */
  lemma Decomposed(subject: string, body: string)
    returns (kind: string, scope: Option<string>, bang: bool, rest: string)
    requires WordLength(subject) > 0
    requires ParseAfterKind(subject[..WordLength(subject)], subject[WordLength(subject)..], body).Some?
    ensures Conventional(subject, kind, scope, bang, rest)
  {
    var n := WordLength(subject);
    kind := subject[..n];
    ScopeParts(subject[n..]);
    var (read, after) := ScopeOf(subject[n..]);
    scope := read;
    bang, rest := MarkParts(kind, scope, after, body);
    assert subject == kind + subject[n..];
  }

  /** A subject that is not written from such parts is kept whole. */
  lemma Unconventional(subject: string, body: string)
    requires forall kind, scope, bang, rest :: !Conventional(subject, kind, scope, bang, rest)
    ensures ParseConventional(subject, body) == Parsed("other", None, false, subject)
  {
    if WordLength(subject) > 0
      && ParseAfterKind(subject[..WordLength(subject)], subject[WordLength(subject)..], body).Some? {
      var kind, scope, bang, rest := Decomposed(subject, body);
      assert false;
    }
  }

  // ---- bookkeeping among the conventional subjects ----

  lemma {:induction false} LowerAppend(a: string, b: string)
    ensures Lower(a + b) == Lower(a) + Lower(b)
    decreases |a|
  {
    if a == "" {
      assert a + b == b;
    } else {
      assert (a + b)[1..] == a[1..] + b;
      LowerAppend(a[1..], b);
    }
  }

  /** Letters lose their case, and nothing else changes. */
  lemma {:induction false} LowerExact(s: string)
    ensures |Lower(s)| == |s|
    ensures forall i :: 0 <= i < |s| ==>
      Lower(s)[i] == if 'A' <= s[i] <= 'Z' then 'a' + (s[i] - 'A') else s[i]
    decreases |s|
  {
    if s != "" {
      LowerExact(s[1..]);
    }
  }

  lemma LowerScope(scope: Option<string>)
    requires IsScope(scope)
    ensures ScopeText(Lower(if scope.Some? then "(" + scope.value + ")" else ""))
  {
    if scope.Some? {
      var x := scope.value;
      LowerExact(x);
      LowerAppend("(" + x, ")");
      LowerAppend("(", x);
      assert Lower("(") == "(" && Lower(")") == ")";
      assert Lower("(" + x + ")") == "(" + Lower(x) + ")";
      assert Free(Lower(x), ')');
    }
  }

  lemma LowerKind(kind: string)
    requires IsKind(kind)
    ensures IsKind(Lower(kind))
  {
    LowerExact(kind);
  }

  /** Only a name that is `chore` opens a bookkeeping subject. */
  lemma ChoreName(name: string, tail: string)
    requires IsKind(name) && tail != "" && !IsWordChar(tail[0])
    requires StartsWith(name + tail, "chore") && StartsWith(BehindScope((name + tail)[5..]), ": ")
    ensures name == "chore"
  {
    var s := name + tail;
    assert s[|name|] == tail[0] && forall i :: 0 <= i < |name| ==> s[i] == name[i];
    assert forall i :: 0 <= i < 5 ==> s[i] == "chore"[i] && IsWordChar(s[i]);
    assert |name| >= 5 && s[5..][0] == s[5];
    assert s[..5] == name[..5] && (|name| == 5 ==> name[..5] == name);
  }

  lemma TailBehindScope(named: string, bang: bool, rest: string)
    requires ScopeText(named)
    ensures var tail := (if bang then "!" else "") + (":" + rest); BehindScope(named + tail) == tail
    ensures StartsWith((if bang then "!" else "") + (":" + rest), ": ") <==> !bang && StartsWith(rest, " ")
  {
    var tail := (if bang then "!" else "") + (":" + rest);
    assert tail[0] == if bang then '!' else ':';
    ScopeSkipped(named, tail);
    assert tail[0] == ':' ==> tail == ":" + rest;
    assert !bang && rest != "" ==> tail[1] == rest[0];
    assert " "[0] == ' ' && ": "[1] == ' ';
  }

  /** The conventional subjects that are bookkeeping: an unmarked chore with one blank and a version. */
  lemma WrittenCut(kind: string, scope: Option<string>, bang: bool, rest: string)
    requires IsKind(kind) && IsScope(scope)
    ensures IsBookkeeping(Written(kind, scope, bang, rest))
       <==> Lower(kind) == "chore" && !bang && StartsWith(rest, " ") && CutMessage(Lower(rest[1..]))
  {
    var named := if scope.Some? then "(" + scope.value + ")" else "";
    var tail := (if bang then "!" else "") + (":" + Lower(rest));
    LowerWritten(kind, scope, bang, rest);
    LowerKind(kind);
    LowerScope(scope);
    TailBehindScope(Lower(named), bang, Lower(rest));
    CutOfTail(Lower(kind), Lower(named), bang, Lower(rest), Lower(Written(kind, scope, bang, rest)));
    LowerExact(rest);
    if StartsWith(rest, " ") {
      LowerAppend(" ", rest[1..]);
      assert rest == " " + rest[1..] && Lower(" ") == " ";
    }
  }

  lemma LowerWritten(kind: string, scope: Option<string>, bang: bool, rest: string)
    ensures var named := if scope.Some? then "(" + scope.value + ")" else "";
      Lower(Written(kind, scope, bang, rest))
      == Lower(kind) + (Lower(named) + ((if bang then "!" else "") + (":" + Lower(rest))))
  {
    var named, mark := if scope.Some? then "(" + scope.value + ")" else "", if bang then "!" else "";
    LowerAppend(kind, named + (mark + (":" + rest)));
    LowerAppend(named, mark + (":" + rest));
    LowerAppend(mark, ":" + rest);
    LowerAppend(":", rest);
    assert Lower("!") == "!" && Lower(":") == ":" && Lower("") == "";
  }

  lemma CutOfTail(name: string, named: string, bang: bool, rest: string, s: string)
    requires IsKind(name) && ScopeText(named)
    requires s == name + (named + ((if bang then "!" else "") + (":" + rest)))
    ensures (StartsWith(s, "chore") && StartsWith(BehindScope(s[5..]), ": ")
             && IsVersion(DropPrefix(BehindScope(s[5..])[2..], BUMP)))
       <==> name == "chore" && !bang && StartsWith(rest, " ") && CutMessage(rest[1..])
  {
    var mark := if bang then "!" else "";
    var tail := named + (mark + (":" + rest));
    TailBehindScope(named, bang, rest);
    assert tail[0] == if named != "" then '(' else if bang then '!' else ':';
    if StartsWith(s, "chore") && StartsWith(BehindScope(s[5..]), ": ") {
      ChoreName(name, tail);
    }
    if name == "chore" {
      assert s[5..] == tail && "chore" <= s;
      if !bang && StartsWith(rest, " ") {
        assert (mark + (":" + rest))[2..] == rest[1..];
        CutExact(rest[1..]);
      }
    }
  }

  // ---- where a commit is listed ----

  /** The groups of this commit alone. */
  function Alone(c: Commit): Changelog.Groups {
    GroupsOf(EntriesOf([c]))
  }

  /** One entry, in the group of its slot. */
  function Single(slot: Slot, text: string): Changelog.Groups {
    match slot
    case Breaking => Changelog.Groups([], [], [text], [])
    case Added => Changelog.Groups([text], [], [], [])
    case Fixed => Changelog.Groups([], [text], [], [])
    case Changed => Changelog.Groups([], [], [text], [])
    case Other => Changelog.Groups([], [], [], [text])
  }

  lemma AloneOf(c: Commit)
    ensures var e := EntryOf(c);
      Alone(c) == if e.bookkeeping then Changelog.Groups([], [], [], []) else Single(e.slot, e.text)
  {
    var e := EntryOf(c);
    assert EntriesOf([c]) == [e];
    OneEntry(e);
  }

  lemma OneEntry(e: Entry)
    ensures GroupsOf([e]) == if e.bookkeeping then Changelog.Groups([], [], [], []) else Single(e.slot, e.text)
  {
    var es := [e];
    GroupedExact(es);
    assert es[..0] == [] && Grouped([]) == Changelog.Groups([], [], [], []);
    assert [] + [e.text] == [e.text] && [e.text] + [] == [e.text];
  }

  /** The commit's body announces a breaking change. */
  ghost predicate Announces(body: string) {
    exists i: nat :: FooterLine(body, i)
  }

  /** A commit of the release-cut flow is listed nowhere. */
  lemma CutDropped(c: Commit)
    requires ReleaseCut(c.subject)
    ensures Alone(c) == Changelog.Groups([], [], [], [])
  {
    BookkeepingExact(c.subject);
    AloneOf(c);
  }

  /**
   * Every other commit with a conventional subject is listed once: marked and under Changed when it is
   * breaking, by its `!` or a footer, and otherwise in the group of its type.
   */
  lemma ConventionalPlaced(hash: string, kind: string, scope: Option<string>, bang: bool, rest: string, message: string,
      body: string)
    requires IsKind(kind) && IsScope(scope) && Says(rest, message)
    requires !(Lower(kind) == "chore" && !bang && StartsWith(rest, " ") && CutMessage(Lower(rest[1..])))
    ensures var c := Commit(hash, Written(kind, scope, bang, rest), body);
      var text, name := FormatEntry(scope, message, Reference(c)), Lower(kind);
      Alone(c) == if bang || Announces(body) then Changelog.Groups([], [], ["**BREAKING** " + text], [])
        else if name == "feat" then Changelog.Groups([text], [], [], [])
        else if name == "fix" then Changelog.Groups([], [text], [], [])
        else if name in ["refactor", "perf", "docs", "test", "chore", "ci", "style"]
          then Changelog.Groups([], [], [text], [])
        else Changelog.Groups([], [], [], [text])
  {
    var c := Commit(hash, Written(kind, scope, bang, rest), body);
    WrittenEntry(hash, kind, scope, bang, rest, message, body);
    AloneOf(c);
    KindPlaced(Parsed(Lower(kind), scope, bang || Announces(body), message), FormatEntry(scope, message, Reference(c)));
  }

  lemma KindPlaced(p: Parsed, text: string)
    ensures var slot := SlotOf(p);
      Single(slot, Marked(slot.Breaking?, text))
      == if p.breaking then Changelog.Groups([], [], ["**BREAKING** " + text], [])
         else if p.kind == "feat" then Changelog.Groups([text], [], [], [])
         else if p.kind == "fix" then Changelog.Groups([], [text], [], [])
         else if p.kind in ["refactor", "perf", "docs", "test", "chore", "ci", "style"]
           then Changelog.Groups([], [], [text], [])
         else Changelog.Groups([], [], [], [text])
  {
    assert BREAKING + " " == "**BREAKING** ";
  }

  lemma WrittenEntry(hash: string, kind: string, scope: Option<string>, bang: bool, rest: string, message: string,
      body: string)
    requires IsKind(kind) && IsScope(scope) && Says(rest, message)
    requires !(Lower(kind) == "chore" && !bang && StartsWith(rest, " ") && CutMessage(Lower(rest[1..])))
    ensures var c := Commit(hash, Written(kind, scope, bang, rest), body);
      var slot := SlotOf(Parsed(Lower(kind), scope, bang || Announces(body), message));
      EntryOf(c) == Entry(false, slot, Marked(slot.Breaking?, FormatEntry(scope, message, Reference(c))))
  {
    MessageExact(rest, message);
    WrittenRead(kind, scope, bang, rest, body);
    WrittenCut(kind, scope, bang, rest);
    FooterExact(body);
  }

  /** Every other commit is listed under Other, with its whole subject. */
  lemma UnconventionalPlaced(c: Commit)
    requires forall kind, scope, bang, rest :: !Conventional(c.subject, kind, scope, bang, rest)
    requires !ReleaseCut(c.subject)
    ensures Alone(c) == Changelog.Groups([], [], [], [FormatEntry(None, c.subject, Reference(c))])
  {
    Unconventional(c.subject, c.body);
    BookkeepingExact(c.subject);
    OtherEntry(c, ParseConventional(c.subject, c.body));
    AloneOf(c);
  }

  lemma OtherEntry(c: Commit, p: Parsed)
    requires p == ParseConventional(c.subject, c.body) && p.kind == "other" && !p.breaking
    requires !IsBookkeeping(c.subject)
    ensures EntryOf(c) == Entry(false, Other, FormatEntry(p.scope, p.subject, Reference(c)))
  {
    KindIsOther(p);
  }

  lemma KindIsOther(p: Parsed)
    requires p.kind == "other" && !p.breaking
    ensures SlotOf(p) == Other
  {
  }
}

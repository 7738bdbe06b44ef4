/** scripts/changelog.js: conventional commit subjects and the groups of a release section. */
module CommitGroups {
  import opened Wrappers
  import opened Lists
  import opened Text
  import Changelog
  import ChangelogLaws
  import opened CommitEntries
  import opened GitLog

  // ---- type(scope)!: message ----

  function WordLength(s: string): (n: nat)
    ensures n <= |s|
    ensures forall i :: 0 <= i < n ==> IsWordChar(s[i])
    ensures n < |s| ==> !IsWordChar(s[n])
  {
    if s != "" && IsWordChar(s[0]) then 1 + WordLength(s[1..]) else 0
  }

  function LowerChar(c: char): char {
    if 'A' <= c <= 'Z' then (c as int + 32) as char else c
  }

  function Lower(s: string): string {
    if s == "" then "" else [LowerChar(s[0])] + Lower(s[1..])
  }

  datatype Parsed = Parsed(kind: string, scope: Option<string>, breaking: bool, subject: string)

  /** `(\([^)]+\))?` at the start: the scope and what follows it. */
  function ScopeOf(s: string): (Option<string>, string) {
    var i := FirstOf(s, ')');
    if s != "" && s[0] == '(' && i >= 2 then (Some(s[1..i]), s[i + 1..]) else (None, s)
  }

  /** `\s*(.+)$`: the trimmed message, when the text ends in one line of at least one character. */
  function MessageOf(s: string): Option<string> {
    var t := TrimStart(s);
    if t == "" then (if s != "" && !IsLineEnd(s[|s| - 1]) then Some("") else None)
    else if exists c :: c in t && IsLineEnd(c) then None
    else Some(Trim(t))
  }

  predicate FooterAt(body: string, i: int) {
    && 0 <= i && (i == 0 || (i <= |body| && IsLineEnd(body[i - 1])))
    && (MatchesAt(body, "BREAKING CHANGE:", i) || MatchesAt(body, "BREAKING-CHANGE:", i))
  }

  predicate HasBreakingFooter(body: string) {
    exists i | 0 <= i < |body| :: FooterAt(body, i)
  }

  function ParseConventional(subject: string, body: string): Parsed {
    var n := WordLength(subject);
    var rest := ParseAfterKind(subject[..n], subject[n..], body);
    if n == 0 || rest.None? then Parsed("other", None, false, subject) else rest.value
  }

  /** From the scope on. */
  function ParseAfterKind(kind: string, s: string, body: string): Option<Parsed> {
    var (scope, rest) := ScopeOf(s);
    if StartsWith(rest, "!") then ParseAfterBang(kind, scope, true, rest[1..], body)
    else ParseAfterBang(kind, scope, HasBreakingFooter(body), rest, body)
  }

  /** From the colon on. */
  function ParseAfterBang(kind: string, scope: Option<string>, breaking: bool, s: string,
      body: string): Option<Parsed>
  {
    if !StartsWith(s, ":") then None else
      var message := MessageOf(s[1..]);
      if message.None? then None else Some(Parsed(Lower(kind), scope, breaking, message.value))
  }

  // ---- what a conventional subject says is what is read ----

  /** A subject with these parts; `rest` is all that follows the colon. */
  function Written(kind: string, scope: Option<string>, bang: bool, rest: string): string {
    kind + ((if scope.Some? then "(" + scope.value + ")" else "") + ((if bang then "!" else "") + (":" + rest)))
  }

  function PrintSubject(kind: string, scope: Option<string>, bang: bool, message: string): string {
    Written(kind, scope, bang, " " + message)
  }

  predicate IsKind(kind: string) {
    kind != "" && forall i :: 0 <= i < |kind| ==> IsWordChar(kind[i])
  }

  predicate IsScope(scope: Option<string>) {
    scope.Some? ==> scope.value != "" && Free(scope.value, ')')
  }

  lemma {:induction false} WordLengthIs(a: string, b: string)
    requires forall i :: 0 <= i < |a| ==> IsWordChar(a[i])
    requires b != "" ==> !IsWordChar(b[0])
    ensures WordLength(a + b) == |a|
    decreases |a|
  {
    if a == "" {
      assert a + b == b;
    } else {
      assert (a + b)[1..] == a[1..] + b;
      WordLengthIs(a[1..], b);
    }
  }

  lemma ScopeRead(scope: string, rest: string)
    requires scope != "" && Free(scope, ')')
    ensures ScopeOf("(" + scope + ")" + rest) == (Some(scope), rest)
  {
    var s := "(" + scope + ")" + rest;
    var k := |scope| + 1;
    assert s[k] == ')';
    assert forall j :: 1 <= j < k ==> s[j] == scope[j - 1] && scope[j - 1] in scope;
    assert FirstOf(s, ')') == k;
    assert s[1..k] == scope && s[k + 1..] == rest;
  }

  lemma MessageRead(message: string)
    requires message != "" && Trim(message) == message && !IsSpace(message[0])
    requires forall c :: c in message ==> !IsLineEnd(c)
    ensures MessageOf(" " + message) == Some(message)
  {
    assert (" " + message)[1..] == message;
    assert TrimStart(" " + message) == message;
  }

  lemma AfterKind(scope: Option<string>, bang: bool, rest: string)
    requires scope.Some? ==> scope.value != "" && Free(scope.value, ')')
    requires rest != "" && rest[0] == ':'
    ensures var s := (if scope.Some? then "(" + scope.value + ")" else "") + ((if bang then "!" else "") + rest);
      s != "" && !IsWordChar(s[0]) && ScopeOf(s) == (scope, (if bang then "!" else "") + rest)
  {
    var tail := (if bang then "!" else "") + rest;
    if scope.Some? {
      ScopeRead(scope.value, tail);
    } else {
      assert "" + tail == tail;
    }
  }

  lemma MarkRead(bang: bool, rest: string)
    ensures var marked := (if bang then "!" else "") + (":" + rest);
      && StartsWith(marked, "!") == bang && (if bang then marked[1..] else marked) == ":" + rest
      && StartsWith(":" + rest, ":") && (":" + rest)[1..] == rest
  {
    var tail := ":" + rest;
    assert tail[0] == ':' && tail[1..] == rest;
    assert bang ==> ("!" + tail)[0] == '!' && ("!" + tail)[1..] == tail;
    assert "" + tail == tail;
  }

  lemma ParsedAfterKind(kind: string, scope: Option<string>, bang: bool, rest: string, body: string)
    requires IsScope(scope)
    ensures var s :=
        (if scope.Some? then "(" + scope.value + ")" else "") + ((if bang then "!" else "") + (":" + rest));
      ParseAfterKind(kind, s, body)
      == if MessageOf(rest).None? then None
         else Some(Parsed(Lower(kind), scope, bang || HasBreakingFooter(body), MessageOf(rest).value))
  {
    AfterKind(scope, bang, ":" + rest);
    MarkRead(bang, rest);
  }

  /** Every subject written from its parts is read back as those parts, if anything follows the colon. */
  lemma WrittenRead(kind: string, scope: Option<string>, bang: bool, rest: string, body: string)
    requires IsKind(kind) && IsScope(scope) && MessageOf(rest).Some?
    ensures ParseConventional(Written(kind, scope, bang, rest), body)
         == Parsed(Lower(kind), scope, bang || HasBreakingFooter(body), MessageOf(rest).value)
  {
    var afterKind := (if scope.Some? then "(" + scope.value + ")" else "")
                   + ((if bang then "!" else "") + (":" + rest));
    AfterKind(scope, bang, ":" + rest);
    WordLengthIs(kind, afterKind);
    ParsedAfterKind(kind, scope, bang, rest, body);
    assert (kind + afterKind)[|kind|..] == afterKind && (kind + afterKind)[..|kind|] == kind;
  }

  /**
   * Every subject written as type, optional scope, optional `!` and message reads back as those parts;
   * it is breaking exactly by its `!` or a footer in the body, whatever words the message holds.
   */
  lemma SubjectRoundTrip(kind: string, scope: Option<string>, bang: bool, message: string, body: string)
    requires kind != "" && forall i :: 0 <= i < |kind| ==> IsWordChar(kind[i])
    requires scope.Some? ==> scope.value != "" && Free(scope.value, ')')
    requires message != "" && Trim(message) == message && !IsSpace(message[0])
    requires forall c :: c in message ==> !IsLineEnd(c)
    ensures ParseConventional(PrintSubject(kind, scope, bang, message), body)
         == Parsed(Lower(kind), scope, bang || HasBreakingFooter(body), message)
  {
    MessageRead(message);
    WrittenRead(kind, scope, bang, " " + message, body);
  }

  // ---- grouping ----

  datatype Slot = Breaking | Added | Fixed | Changed | Other

  function SlotOf(p: Parsed): Slot {
    if p.breaking then Breaking
    else if p.kind == "feat" then Added
    else if p.kind == "fix" then Fixed
    else if p.kind in ["refactor", "perf", "docs", "test", "chore", "ci", "style"] then Changed
    else Other
  }

  /** What grouping needs to know of one commit: release bookkeeping or not, its slot, its printed entry. */
  datatype Entry = Entry(bookkeeping: bool, slot: Slot, text: string)

  function DropPrefix(s: string, prefix: string): string {
    if StartsWith(s, prefix) then s[|prefix|..] else s
  }

  /** `v?\d+\.\d+\.\d+` over the whole text. */
  predicate IsVersion(s: string) {
    var parts := SplitOn(DropPrefix(s, "v"), ".");
    |parts| == 3 && AllDigits(parts[0]) && AllDigits(parts[1]) && AllDigits(parts[2])
  }

  /** The text behind an optional scope in parentheses; nothing when they are not closed. */
  function BehindScope(t: string): string {
    var close := FirstOf(t, ')');
    if !StartsWith(t, "(") then t else if close == -1 then "" else t[close + 1..]
  }

  /** The subjects of the release-cut flow, in any case. */
  predicate IsBookkeeping(subject: string) {
    var s := Lower(subject);
    StartsWith(s, "chore") &&
    var rest := BehindScope(s[5..]);
    StartsWith(rest, ": ") && IsVersion(DropPrefix(rest[2..], "bump version to "))
  }

  /** The pulls cited by the subject or, when it cites none, by the body. */
  function Reference(c: Commit): Option<string> {
    var r := ExtractReference(c.subject);
    if r.Some? then r else ExtractReference(c.body)
  }

  const BREAKING := "**BREAKING**"

  function Marked(breaking: bool, entry: string): string {
    if breaking then BREAKING + " " + entry else entry
  }

  function EntryOf(c: Commit): Entry {
    var p := ParseConventional(c.subject, c.body);
    var slot := SlotOf(p);
    Entry(IsBookkeeping(c.subject), slot, Marked(slot.Breaking?, FormatEntry(p.scope, p.subject, Reference(c))))
  }

  function EntriesOf(cs: seq<Commit>): seq<Entry> {
    seq(|cs|, i requires 0 <= i < |cs| => EntryOf(cs[i]))
  }

  /** The texts of one slot, in commit order. */
  function In(es: seq<Entry>, slot: Slot): seq<string> {
    if es == [] then [] else
      var e := es[|es| - 1];
      In(es[..|es| - 1], slot) + if !e.bookkeeping && e.slot == slot then [e.text] else []
  }

  function Reverse(xs: seq<string>): seq<string> {
    if xs == [] then [] else [xs[|xs| - 1]] + Reverse(xs[..|xs| - 1])
  }

  /** The groups of some entries, as lists of texts. */
  function GroupsOf(es: seq<Entry>): Changelog.Groups {
    Changelog.Groups(In(es, Added), In(es, Fixed), Reverse(In(es, Breaking)) + In(es, Changed), In(es, Other))
  }

  /** One commit's entry put in its place: breaking ones go first in Changed. */
  function Push(g: Changelog.Groups, e: Entry): Changelog.Groups {
    if e.bookkeeping then g else
      match e.slot
      case Breaking => g.(changed := [e.text] + g.changed)
      case Added => g.(added := g.added + [e.text])
      case Fixed => g.(fixed := g.fixed + [e.text])
      case Changed => g.(changed := g.changed + [e.text])
      case Other => g.(other := g.other + [e.text])
  }

  function Grouped(es: seq<Entry>): Changelog.Groups {
    if es == [] then Changelog.Groups([], [], [], []) else Push(Grouped(es[..|es| - 1]), es[|es| - 1])
  }

  method GroupCommits(cs: seq<Commit>) returns (groups: Changelog.Groups)
    ensures groups == GroupsOf(EntriesOf(cs))
  {
    groups := GroupEntries(EntriesOf(cs));
    GroupedExact(EntriesOf(cs));
  }

  lemma InStep(es: seq<Entry>, i: nat, slot: Slot)
    requires i < |es|
    ensures In(es[..i + 1], slot)
         == if !es[i].bookkeeping && es[i].slot == slot then In(es[..i], slot) + [es[i].text] else In(es[..i], slot)
  {
    assert es[..i + 1][..i] == es[..i];
  }

  /** The loop over the commits, on what it needs to know of each. */
  method GroupEntries(es: seq<Entry>) returns (groups: Changelog.Groups)
    ensures groups == Grouped(es)
  {
    groups := Changelog.Groups([], [], [], []);
    for i := 0 to |es|
      invariant groups == Grouped(es[..i])
    {
      var e := es[i];
      assert es[..i + 1][..i] == es[..i];
      if e.bookkeeping {
        continue;
      }
      match e.slot {
        case Breaking => groups := groups.(changed := [e.text] + groups.changed);
        case Added => groups := groups.(added := groups.added + [e.text]);
        case Fixed => groups := groups.(fixed := groups.fixed + [e.text]);
        case Changed => groups := groups.(changed := groups.changed + [e.text]);
        case Other => groups := groups.(other := groups.other + [e.text]);
      }
    }
    assert es[..|es|] == es;
  }

  lemma PushExact(before: seq<Entry>, e: Entry)
    ensures Push(GroupsOf(before), e) == GroupsOf(before + [e])
  {
    var es := before + [e];
    assert es[..|before|] == before && es[..|before| + 1] == es;
    InStep(es, |before|, Breaking);
    InStep(es, |before|, Added);
    InStep(es, |before|, Fixed);
    InStep(es, |before|, Changed);
    InStep(es, |before|, Other);
    ReverseSnoc(In(before, Breaking), e.text);
    Associative([e.text], Reverse(In(before, Breaking)), In(before, Changed));
    Associative(Reverse(In(before, Breaking)), In(before, Changed), [e.text]);
  }

  /**
   * The order inside each group: commit order, except that Changed is the breaking entries in reverse
   * order followed by the rest in order.
   */
  lemma {:induction false} GroupedExact(es: seq<Entry>)
    ensures Grouped(es) == GroupsOf(es)
    decreases |es|
  {
    if es != [] {
      var n := |es| - 1;
      GroupedExact(es[..n]);
      PushExact(es[..n], es[n]);
      assert es == es[..n] + [es[n]];
    }
  }

  lemma ReverseSnoc(xs: seq<string>, x: string)
    ensures Reverse(xs + [x]) == [x] + Reverse(xs)
  {
    assert (xs + [x])[..|xs|] == xs;
  }

  function Kept(es: seq<Entry>): seq<string> {
    if es == [] then [] else
      var e := es[|es| - 1];
      Kept(es[..|es| - 1]) + if e.bookkeeping then [] else [e.text]
  }

  lemma {:induction false} ReverseKeeps(xs: seq<string>)
    ensures multiset(Reverse(xs)) == multiset(xs)
    decreases |xs|
  {
    if xs != [] {
      var n := |xs| - 1;
      ReverseKeeps(xs[..n]);
      assert xs == xs[..n] + [xs[n]];
    }
  }

  lemma SlotStep(es: seq<Entry>, slot: Slot)
    requires es != []
    ensures var before, e := es[..|es| - 1], es[|es| - 1];
      multiset(In(es, slot))
      == if !e.bookkeeping && e.slot == slot
         then multiset(In(before, slot)) + multiset{e.text} else multiset(In(before, slot))
  {
    assert es[..|es|] == es;
    InStep(es, |es| - 1, slot);
  }

  function Union5(a: multiset<string>, b: multiset<string>, c: multiset<string>, d: multiset<string>,
      e: multiset<string>): multiset<string>
  {
    a + b + c + d + e
  }

  lemma OneMore(a: multiset<string>, b: multiset<string>, c: multiset<string>, d: multiset<string>,
      e: multiset<string>, t: multiset<string>)
    ensures Union5(a + t, b, c, d, e) == Union5(a, b, c, d, e) + t
    ensures Union5(a, b + t, c, d, e) == Union5(a, b, c, d, e) + t
    ensures Union5(a, b, c + t, d, e) == Union5(a, b, c, d, e) + t
    ensures Union5(a, b, c, d + t, e) == Union5(a, b, c, d, e) + t
    ensures Union5(a, b, c, d, e + t) == Union5(a, b, c, d, e) + t
  {
  }

  function AllSlots(es: seq<Entry>): multiset<string> {
    Union5(multiset(In(es, Breaking)), multiset(In(es, Added)), multiset(In(es, Fixed)),
           multiset(In(es, Changed)), multiset(In(es, Other)))
  }

  lemma AllSlotsStep(es: seq<Entry>)
    requires es != []
    ensures var before, e := es[..|es| - 1], es[|es| - 1];
      AllSlots(es) == if e.bookkeeping then AllSlots(before) else AllSlots(before) + multiset{e.text}
  {
    var before, e := es[..|es| - 1], es[|es| - 1];
    SlotStep(es, Breaking);
    SlotStep(es, Added);
    SlotStep(es, Fixed);
    SlotStep(es, Changed);
    SlotStep(es, Other);
    var b, a, f := multiset(In(before, Breaking)), multiset(In(before, Added)), multiset(In(before, Fixed));
    var c, o, t := multiset(In(before, Changed)), multiset(In(before, Other)), multiset{e.text};
    OneMore(b, a, f, c, o, t);
    if !e.bookkeeping {
      match e.slot {
        case Breaking => assert AllSlots(es) == Union5(b + t, a, f, c, o);
        case Added => assert AllSlots(es) == Union5(b, a + t, f, c, o);
        case Fixed => assert AllSlots(es) == Union5(b, a, f + t, c, o);
        case Changed => assert AllSlots(es) == Union5(b, a, f, c + t, o);
        case Other => assert AllSlots(es) == Union5(b, a, f, c, o + t);
      }
    }
  }

  lemma {:induction false} SlotsPartition(es: seq<Entry>)
    ensures AllSlots(es) == multiset(Kept(es))
    decreases |es|
  {
    if es != [] {
      SlotsPartition(es[..|es| - 1]);
      AllSlotsStep(es);
    }
  }

  /** Grouping conserves: every commit that is not bookkeeping is printed once, and nothing else is. */
  lemma GroupsConserve(es: seq<Entry>)
    ensures var g := GroupsOf(es);
      multiset(g.added) + multiset(g.fixed) + multiset(g.changed) + multiset(g.other) == multiset(Kept(es))
  {
    ReverseKeeps(In(es, Breaking));
    SlotsPartition(es);
  }

  lemma {:induction false} InFree(es: seq<Entry>, slot: Slot)
    requires forall e :: e in es ==> Free(e.text, '\n')
    ensures AllFree(In(es, slot), '\n')
    decreases |es|
  {
    if es != [] {
      InFree(es[..|es| - 1], slot);
      assert es[|es| - 1] in es;
    }
  }

  lemma {:induction false} ReverseFree(xs: seq<string>)
    requires AllFree(xs, '\n')
    ensures AllFree(Reverse(xs), '\n')
    decreases |xs|
  {
    if xs != [] {
      ReverseFree(xs[..|xs| - 1]);
    }
  }

  lemma GroupsNewlineFree(es: seq<Entry>)
    requires forall e :: e in es ==> Free(e.text, '\n')
    ensures GroupsOf(es).NewlineFree()
  {
    InFree(es, Added);
    InFree(es, Fixed);
    InFree(es, Breaking);
    InFree(es, Changed);
    InFree(es, Other);
    ReverseFree(In(es, Breaking));
  }

  // ---- what the entries of commits look like ----

  lemma ScopeFree(s: string, d: char)
    requires Free(s, d)
    ensures var (scope, rest) := ScopeOf(s); (scope.Some? ==> Free(scope.value, d)) && Free(rest, d)
  {
  }

  lemma MessageFree(s: string, d: char)
    requires Free(s, d)
    ensures MessageOf(s).Some? ==> Free(MessageOf(s).value, d)
  {
    TrimStartFacts(s);
    FreeTail(s, d, |s| - |TrimStart(s)|);
    TrimFree(TrimStart(s), d);
  }

  lemma BangFree(kind: string, scope: Option<string>, breaking: bool, s: string, body: string, d: char)
    requires Free(s, d)
    ensures var p := ParseAfterBang(kind, scope, breaking, s, body);
      p.Some? ==> p.value.scope == scope && Free(p.value.subject, d)
  {
    if StartsWith(s, ":") {
      FreeTail(s, d, 1);
      MessageFree(s[1..], d);
    }
  }

  lemma KindFree(kind: string, s: string, body: string, d: char)
    requires Free(s, d)
    ensures var p := ParseAfterKind(kind, s, body);
      p.Some? ==> (p.value.scope.Some? ==> Free(p.value.scope.value, d)) && Free(p.value.subject, d)
  {
    var (scope, rest) := ScopeOf(s);
    ScopeFree(s, d);
    if StartsWith(rest, "!") {
      FreeTail(rest, d, 1);
      BangFree(kind, scope, true, rest[1..], body, d);
    } else {
      BangFree(kind, scope, HasBreakingFooter(body), rest, body, d);
    }
  }

  /** Scope and message are taken from the subject. */
  lemma ParsedFree(subject: string, body: string, d: char)
    requires Free(subject, d)
    ensures var p := ParseConventional(subject, body); (p.scope.Some? ==> Free(p.scope.value, d)) && Free(p.subject, d)
  {
    var n := WordLength(subject);
    FreeTail(subject, d, n);
    KindFree(subject[..n], subject[n..], body, d);
  }

  /** An entry is one line, because git prints a subject on one line. */
  lemma EntryFree(c: Commit)
    requires Free(c.subject, '\n')
    ensures Free(EntryOf(c).text, '\n')
  {
    var p := ParseConventional(c.subject, c.body);
    ParsedFree(c.subject, c.body, '\n');
    EntryOneLine(p.scope, p.subject, c.subject);
    EntryOneLine(p.scope, p.subject, c.body);
    MarkedFree(SlotOf(p).Breaking?, FormatEntry(p.scope, p.subject, Reference(c)));
  }

  lemma MarkedFree(breaking: bool, entry: string)
    requires Free(entry, '\n')
    ensures Free(Marked(breaking, entry), '\n')
  {
    MarkFree('\n');
  }

  ghost predicate OneLiners(cs: seq<Commit>) {
    forall c :: c in cs ==> Free(c.subject, '\n')
  }

  lemma EntriesFree(cs: seq<Commit>)
    requires OneLiners(cs)
    ensures forall e :: e in EntriesOf(cs) ==> Free(e.text, '\n')
  {
    forall i | 0 <= i < |cs| ensures Free(EntriesOf(cs)[i].text, '\n') {
      assert cs[i] in cs;
      EntryFree(cs[i]);
    }
  }

  /** A prefix without hashes cites nothing, unless it ends where a citation could begin. */
  lemma {:induction false} CitesAfter(prefix: string, s: string)
    requires Free(prefix, '#') && (prefix != "" ==> prefix[|prefix| - 1] != '(')
    ensures Cites(prefix + s) == Cites(s)
    decreases |prefix|
  {
    if prefix == "" {
      assert prefix + s == s;
    } else {
      var t := prefix + s;
      assert t[1..] == prefix[1..] + s && t[0] == prefix[0];
      assert |prefix| > 1 ==> t[1] == prefix[1] && prefix[1] in prefix;
      CitesAfter(prefix[1..], s);
    }
  }

  lemma CitesOfSubject(kind: string, scope: Option<string>, bang: bool, message: string)
    requires Free(kind, '#') && (kind != "" ==> kind[|kind| - 1] != '(') && (scope.Some? ==> Free(scope.value, '#'))
    ensures Cites(PrintSubject(kind, scope, bang, message)) == Cites(message)
  {
    var named, marked := if scope.Some? then "(" + scope.value + ")" else "", if bang then "!" else "";
    CitesAfter(" ", message);
    CitesAfter(":", " " + message);
    CitesAfter(marked, ":" + (" " + message));
    CitesAfter(named, marked + (":" + (" " + message)));
    CitesAfter(kind, named + (marked + (":" + (" " + message))));
  }

  lemma PullsAfterMark(mark: string, text: string)
    requires Free(mark, '#')
    ensures Pulls(mark + " " + text) == Pulls(text)
  {
    PullsSeparate(mark, ' ', text);
    HashlessPulls(mark);
    assert [] + Pulls(text) == Pulls(text);
  }

  lemma MarkFree(d: char)
    requires d == '#' || d == '\n'
    ensures Free(BREAKING, d)
  {
  }

  lemma MarkedPulls(breaking: bool, text: string)
    ensures Pulls(Marked(breaking, text)) == Pulls(text)
  {
    MarkFree('#');
    PullsAfterMark(BREAKING, text);
  }

  /**
   * The entry of a conventional commit whose message uses hashes only in citations shows every pull it cites
   * exactly once, in order of first citation, and no other number; without any, those its body cites.
   */
  lemma EntryCites(hash: string, kind: string, scope: Option<string>, bang: bool, message: string, body: string)
    requires kind != "" && forall i :: 0 <= i < |kind| ==> IsWordChar(kind[i])
    requires scope.Some? ==> scope.value != "" && Free(scope.value, ')')
    requires message != "" && Trim(message) == message && !IsSpace(message[0])
    requires forall c :: c in message ==> !IsLineEnd(c)
    requires OnlyCites(scope, message)
    ensures var e := EntryOf(Commit(hash, PrintSubject(kind, scope, bang, message), body));
      Pulls(e.text) == Dedupe(if Cites(message) != [] then Cites(message) else Cites(body))
  {
    var c := Commit(hash, PrintSubject(kind, scope, bang, message), body);
    SubjectRoundTrip(kind, scope, bang, message, body);
    var p := ParseConventional(c.subject, c.body);
    WordPlain(kind);
    CitesOfSubject(kind, scope, bang, message);
    CitedText(scope, message, c);
    MarkedPulls(SlotOf(p).Breaking?, FormatEntry(scope, message, Reference(c)));
  }

  lemma CitedText(scope: Option<string>, message: string, c: Commit)
    requires OnlyCites(scope, message) && Cites(c.subject) == Cites(message)
    ensures Pulls(FormatEntry(scope, message, Reference(c)))
      == Dedupe(if Cites(message) != [] then Cites(message) else Cites(c.body))
  {
    HashlessBase(scope, message);
    var text := if Cites(message) != [] then c.subject else c.body;
    DedupeEmpty(Cites(message));
    assert Reference(c) == ExtractReference(text);
    EntryPulls(scope, message, text);
    assert [] + Dedupe(Cites(text)) == Dedupe(Cites(text));
  }

  lemma DedupeEmpty(xs: seq<string>)
    ensures Dedupe(xs) == [] <==> xs == []
  {
    if xs != [] {
      assert xs[0] in Dedupe(xs);
    }
  }

  // ---- regenerating a release ----

  /**
   * Regenerating the changelog from two lists of commits: the second run leaves what it alone would leave,
   * exactly when the file had the release already or the second run's last entry ends visibly.
   */
  lemma RegenerationAbsorbs(version: string, content: string, date1: string, cs1: seq<Commit>, date2: string,
      cs2: seq<Commit>)
    requires Free(version, '\n') && Free(date1, '\n') && Free(date2, '\n') && OneLiners(cs1) && OneLiners(cs2)
    ensures var groups1, groups2 := GroupsOf(EntriesOf(cs1)), GroupsOf(EntriesOf(cs2));
      var s1, s2 := Changelog.Section(version, date1, groups1), Changelog.Section(version, date2, groups2);
      Changelog.Updated(version, s2, Changelog.Updated(version, s1, content)) == Changelog.Updated(version, s2, content)
      <==> Contains(content, Changelog.Header(version)) || ChangelogLaws.VisibleEnd(groups2)
  {
    EntriesFree(cs1);
    EntriesFree(cs2);
    GroupsNewlineFree(EntriesOf(cs1));
    GroupsNewlineFree(EntriesOf(cs2));
    ChangelogLaws.Absorption(version, content, date1, GroupsOf(EntriesOf(cs1)), date2, GroupsOf(EntriesOf(cs2)));
  }

  /** A fix whose subject is only an internal handle: its entry is its scope, a colon and a blank. */
  lemma HandleEntry(hash: string, kind: string, scope: string, handle: string)
    requires Word(kind) && kind[0] == 'f' && Lower(kind) == "fix" && Word(scope) && Word(handle) && HandleAt(handle, 0)
    ensures EntryOf(Commit(hash, PrintSubject(kind, Some(scope), false, "(" + handle + ")"), ""))
         == Entry(false, Fixed, scope + ": ")
  {
    var message := "(" + handle + ")";
    var subject := PrintSubject(kind, Some(scope), false, message);
    HandleMessage(handle);
    WordPlain(scope);
    SubjectRoundTrip(kind, Some(scope), false, message, "");
    NotChore(kind, subject);
    WordPlain(kind);
    CitesOfSubject(kind, Some(scope), false, message);
    NoCites(message);
    NoCites("");
    NoReference(Commit(hash, subject, ""));
    HandleText(scope, handle);
  }

  lemma HandleMessage(handle: string)
    requires Word(handle)
    ensures var m := "(" + handle + ")";
      m != "" && Trim(m) == m && !IsSpace(m[0]) && Free(m, '#') && forall c :: c in m ==> !IsLineEnd(c)
  {
    WordPlain(handle);
    var m := "(" + handle + ")";
    TrimFixes(m);
    assert forall c :: c in m ==> c == '(' || c == ')' || c in handle;
  }

  lemma HandleText(scope: string, handle: string)
    requires Word(scope) && Word(handle) && HandleAt(handle, 0)
    ensures FormatEntry(Some(scope), "(" + handle + ")", None) == scope + ": "
  {
    OnlyHandle(handle);
    assert scope + ": " + "" == scope + ": ";
  }

  lemma NoReference(c: Commit)
    requires Cites(c.subject) == [] && Cites(c.body) == []
    ensures Reference(c) == None
  {
    DedupeEmpty([]);
  }

  lemma NotChore(kind: string, subject: string)
    requires kind != "" && kind[0] == 'f' && kind <= subject
    ensures !IsBookkeeping(subject)
  {
    assert Lower(subject)[0] == 'f';
  }

  /** For one such commit alone, as a first release, a second identical run changes the file. */
  lemma HandleNotAbsorbed(hash: string, date: string)
    requires Free(date, '\n')
    ensures var c := Commit(hash, PrintSubject("fix", Some("parser"), false, "(" + "F081" + ")"), "");
      var s := Changelog.Section("1.0.0", date, GroupsOf(EntriesOf([c])));
      Changelog.Updated("1.0.0", s, Changelog.Updated("1.0.0", s, "")) != Changelog.Updated("1.0.0", s, "")
  {
    var c := Commit(hash, PrintSubject("fix", Some("parser"), false, "(" + "F081" + ")"), "");
    FixWord();
    HandleEntry(hash, "fix", "parser", "F081");
    assert EntriesOf([c]) == [EntryOf(c)];
    assert "parser" + ": " == "parser: ";
    GroupsOfOne(Entry(false, Fixed, "parser: "));
    ChangelogLaws.AbsorptionCanFail(date);
  }

  lemma FixWord()
    ensures Word("fix") && Lower("fix") == "fix" && Word("parser") && Word("F081") && HandleAt("F081", 0)
  {
    var fix := "fix";
    assert fix[1..] == "ix" && "ix"[1..] == "x" && "x"[1..] == "";
    assert Lower("x") == "x" && Lower("ix") == "ix";
    assert "F081"[0..1] == "F" && MatchesAt("F081", "F", 0);
  }

  lemma GroupsOfOne(e: Entry)
    requires !e.bookkeeping && e.slot == Fixed
    ensures GroupsOf([e]) == Changelog.Groups([], [e.text], [], [])
  {
    var es := [e];
    assert es[..0] == [] && es[..1] == es;
    InStep(es, 0, Breaking);
    InStep(es, 0, Added);
    InStep(es, 0, Fixed);
    InStep(es, 0, Changed);
    InStep(es, 0, Other);
  }

  lemma {:induction false} NoCites(s: string)
    requires Free(s, '#')
    ensures Cites(s) == [] && ExtractReference(s) == None
    decreases |s|
  {
    if s != "" {
      assert |s| > 1 ==> s[1] in s;
      NoCites(s[1..]);
    }
  }
}

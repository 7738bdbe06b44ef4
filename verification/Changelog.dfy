/** scripts/changelog.js: rendering a release section and placing it in the changelog file. */
module Changelog {
  import opened Text

  datatype Groups = Groups(added: seq<string>, fixed: seq<string>, changed: seq<string>, other: seq<string>) {
    function Lists(): seq<(string, seq<string>)> {
      [("Added", added), ("Fixed", fixed), ("Changed", changed), ("Other", other)]
    }

    predicate NewlineFree() {
      AllFree(added, '\n') && AllFree(fixed, '\n') && AllFree(changed, '\n') && AllFree(other, '\n')
    }
  }

  const NO_CHANGES := "No notable changes."
  const RELEASE := "\n## ["

  function Header(version: string): string {
    "## [" + version + "] - "
  }

  // ---- the rendered section ----

  function Items(items: seq<string>): string {
    if items == [] then "" else Items(items[..|items| - 1]) + ("- " + items[|items| - 1] + "\n")
  }

  function Group(title: string, items: seq<string>): string {
    if items == [] then "" else "### " + title + "\n\n" + Items(items) + "\n"
  }

  function Body(lists: seq<(string, seq<string>)>): string {
    if lists == [] then "" else
      var last := lists[|lists| - 1];
      Body(lists[..|lists| - 1]) + Group(last.0, last.1)
  }

  function BodyText(groups: Groups): string {
    var body := Body(groups.Lists());
    if body == "" then NO_CHANGES + "\n\n" else body
  }

  function Section(version: string, date: string, groups: Groups): string {
    Header(version) + date + "\n\n" + BodyText(groups)
  }

  lemma {:induction false} EmptyBody(lists: seq<(string, seq<string>)>)
    ensures Body(lists) == "" <==> forall i :: 0 <= i < |lists| ==> lists[i].1 == []
    decreases |lists|
  {
    if lists != [] {
      EmptyBody(lists[..|lists| - 1]);
    }
  }

  lemma BodyStep(lists: seq<(string, seq<string>)>, i: nat)
    requires i < |lists|
    ensures Body(lists[..i + 1]) == Body(lists[..i]) + Group(lists[i].0, lists[i].1)
  {
    assert lists[..i + 1][..i] == lists[..i];
  }

  lemma {:induction false} ItemsStep(items: seq<string>, j: nat)
    requires j < |items|
    ensures Items(items[..j + 1]) == Items(items[..j]) + ("- " + items[j] + "\n")
  {
    assert items[..j + 1][..j] == items[..j];
  }

  method FormatReleaseSection(version: string, date: string, groups: Groups) returns (out: string)
    ensures out == Section(version, date, groups)
  {
    var head := Header(version) + date + "\n\n";
    var body := FormatGroups(groups.Lists());
    out := head + body;
    if body == "" {
      out := head + (NO_CHANGES + "\n\n");
    }
  }

  /** The loop over the four groups. */
  method FormatGroups(lists: seq<(string, seq<string>)>) returns (out: string)
    ensures out == Body(lists)
  {
    out := "";
    for i := 0 to |lists|
      invariant out == Body(lists[..i])
    {
      BodyStep(lists, i);
      if |lists[i].1| != 0 {
        out := FormatGroup(out, lists[i].0, lists[i].1);
      }
    }
    assert lists[..|lists|] == lists;
  }

  /** The loop over the entries of one non-empty group. */
  method FormatGroup(start: string, title: string, items: seq<string>) returns (out: string)
    requires items != []
    ensures out == start + Group(title, items)
  {
    var heading := "### " + title + "\n\n";
    out := start + heading;
    ghost var prelude := out;
    for j := 0 to |items|
      invariant out == prelude + Items(items[..j])
    {
      ItemsStep(items, j);
      out := out + ("- " + items[j] + "\n");
    }
    assert items[..|items|] == items;
    out := out + "\n";
    assert out == start + (heading + Items(items) + "\n");
  }

  // ---- placing the section ----

  function StripNewlines(s: string): (r: string) {
    if EndsWith(s, '\n') then StripNewlines(s[..|s| - 1]) else s
  }

  lemma {:induction false} StripNewlinesFacts(s: string)
    ensures StripNewlines(s) <= s && !EndsWith(StripNewlines(s), '\n')
    ensures forall i :: |StripNewlines(s)| <= i < |s| ==> s[i] == '\n'
    decreases |s|
  {
    if EndsWith(s, '\n') {
      StripNewlinesFacts(s[..|s| - 1]);
    }
  }

  /** `s.replace(/\n+$/, tail)`. */
  function ReplaceTail(s: string, tail: string): string {
    if EndsWith(s, '\n') then StripNewlines(s) + tail else s
  }

  function EnsureNewline(s: string): string {
    if EndsWith(s, '\n') then s else s + "\n"
  }

  /** Where a release's section goes: what stays before it, what stays after it. */
  datatype Site = Site(head: string, rest: string, replacing: bool)

  /** The next release heading, or the end of the file. */
  function SectionEnd(content: string, from: nat): (end: nat)
    requires from <= |content|
    ensures from <= end <= |content|
  {
    var next := IndexFrom(content, RELEASE, from);
    if next == -1 then |content| else next
  }

  /** The site of a section found at `k`, whose heading ends at `from`. */
  function ExistingSite(content: string, k: nat, from: nat): Site
    requires k <= from <= |content|
  {
    Site(ReplaceTail(content[..k], "\n\n"), TrimStart(content[SectionEnd(content, from)..]), true)
  }

  /** Before the first release, or at the end of a file without one. */
  function NewSite(content: string): Site {
    var first := IndexFrom(content, RELEASE, 0);
    if first == -1 then Site(TrimEnd(content) + "\n\n", "", false)
    else Site(StripNewlines(content[..first + 1]) + "\n\n", content[first + 1..], false)
  }

  function Locate(version: string, content: string): Site {
    var k := IndexFrom(content, Header(version), 0);
    if k != -1 then ExistingSite(content, k, k + |Header(version)|) else NewSite(content)
  }

  lemma {:induction false} LocateFound(version: string, content: string, k: nat)
    requires IndexFrom(content, Header(version), 0) == k
    ensures k + |Header(version)| <= |content|
    ensures Locate(version, content) == ExistingSite(content, k, k + |Header(version)|)
  {
  }

  lemma LocateNew(version: string, content: string)
    requires IndexFrom(content, Header(version), 0) == -1
    ensures Locate(version, content) == NewSite(content)
  {
  }

  lemma TwoNewlines(s: string)
    ensures (s + "\n") + "\n" == s + "\n\n"
  {
  }

  lemma {:induction false} NewSiteBeforeFirst(content: string, first: nat)
    requires IndexFrom(content, RELEASE, 0) == first
    ensures first < |content|
    ensures NewSite(content) == Site(ReplaceTail(content[..first + 1], "\n") + "\n", content[first + 1..], false)
  {
    var intro := content[..first + 1];
    assert EndsWith(intro, '\n') by { ReleaseIndex(content, 0); }
    TwoNewlines(StripNewlines(intro));
  }

  function Placed(site: Site, section: string): string {
    if site.replacing then TrimEnd(section) + "\n\n" else section
  }

  function Updated(version: string, section: string, content: string): string {
    var site := Locate(version, content);
    EnsureNewline(site.head + Placed(site, section) + site.rest)
  }

  /** The changelog file on disk. */
  class ChangelogFile {
    var content: string

    constructor (initial: string)
      ensures content == initial
    {
      content := initial;
    }

    method Update(version: string, section: string)
      modifies this
      ensures content == Updated(version, section, old(content))
    {
      var text := content;
      var header := Header(version);
      var existing := IndexFrom(text, header, 0);
      if existing != -1 {
        var afterHeader := existing + |header|;
        var nextSection := IndexFrom(text, RELEASE, afterHeader);
        if nextSection == -1 {
          nextSection := |text|;
        }
        assert nextSection == SectionEnd(text, afterHeader);
        assert Locate(version, text) == ExistingSite(text, existing, afterHeader);
        var head := ReplaceTail(text[..existing], "\n\n");
        text := head + (TrimEnd(section) + "\n\n") + TrimStart(text[nextSection..]);
      } else {
        var firstRelease := IndexFrom(text, RELEASE, 0);
        if firstRelease == -1 {
          text := TrimEnd(text) + "\n\n" + section;
          assert text + "" == text;
        } else {
          NewSiteBeforeFirst(text, firstRelease);
          var head := ReplaceTail(text[..firstRelease + 1], "\n") + "\n";
          text := head + section + text[firstRelease + 1..];
        }
      }
      content := if EndsWith(text, '\n') then text else text + "\n";
    }
  }

  // ---- a section holds no second release heading ----

  predicate ReleaseAt(s: string, i: int) {
    && 0 <= i && i + 5 <= |s|
    && s[i] == '\n' && s[i + 1] == '#' && s[i + 2] == '#' && s[i + 3] == ' ' && s[i + 4] == '['
  }

  lemma ReleaseAtMatches(s: string, i: int)
    ensures ReleaseAt(s, i) <==> MatchesAt(s, RELEASE, i)
  {
    if 0 <= i && i + 5 <= |s| {
      var m := s[i..i + 5];
      assert m == [s[i], s[i + 1], s[i + 2], s[i + 3], s[i + 4]];
    }
  }

  /** Searching for a release heading, in terms of its characters. */
  lemma ReleaseIndex(content: string, from: nat)
    ensures var i := IndexFrom(content, RELEASE, from);
      && (i != -1 ==> ReleaseAt(content, i))
      && forall j :: from <= j && (i == -1 || j < i) ==> !ReleaseAt(content, j)
  {
    IndexFacts(content, RELEASE, from);
    forall j ensures ReleaseAt(content, j) <==> MatchesAt(content, RELEASE, j) { ReleaseAtMatches(content, j); }
  }

  predicate OpensRelease(s: string) {
    |s| >= 4 && s[0] == '#' && s[1] == '#' && s[2] == ' ' && s[3] == '['
  }

  ghost predicate NoRelease(s: string) {
    forall i :: !ReleaseAt(s, i)
  }

  /** A run of complete lines, none of which opens a release. */
  ghost predicate Block(b: string) {
    NoRelease(b) && !OpensRelease(b) && (b == "" || EndsWith(b, '\n'))
  }

  lemma AppendLines(a: string, b: string)
    requires NoRelease(a) && EndsWith(a, '\n')
    requires Block(b)
    ensures NoRelease(a + b)
  {
    assert forall i :: ReleaseAt(a + b, i) && i + 5 <= |a| ==> ReleaseAt(a, i);
    assert forall i :: ReleaseAt(a + b, i) && |a| <= i ==> ReleaseAt(b, i - |a|);
    assert (a + b)[|a| - 1] == '\n';
  }

  lemma BlockAppend(a: string, b: string)
    requires Block(a) && Block(b)
    ensures Block(a + b)
  {
    if a == "" {
      assert a + b == b;
    } else {
      AppendLines(a, b);
      assert (a + b)[|a| - 1] == '\n';
    }
  }

  lemma LineIsBlock(line: string)
    requires Free(line, '\n')
    ensures NoRelease(line + "\n")
    ensures !OpensRelease(line) ==> Block(line + "\n")
  {
    assert forall i :: 0 <= i < |line| ==> (line + "\n")[i] == line[i];
  }

  lemma {:induction false} ItemsBlock(items: seq<string>)
    requires AllFree(items, '\n')
    ensures Block(Items(items))
  {
    if items != [] {
      var last := items[|items| - 1];
      ItemsBlock(items[..|items| - 1]);
      assert Free(last, '\n');
      LineIsBlock("- " + last);
      BlockAppend(Items(items[..|items| - 1]), "- " + last + "\n");
    }
  }

  lemma GroupBlock(title: string, items: seq<string>)
    requires AllFree(items, '\n') && Free(title, '\n')
    ensures Block(Group(title, items))
    ensures items != [] ==> Group(title, items) != "" && Group(title, items)[0] == '#'
  {
    if items != [] {
      var line := "### " + title;
      assert line[2] == '#';
      LineIsBlock(line);
      LineIsBlock("");
      assert "" + "\n" == "\n";
      BlockAppend(line + "\n", "\n");
      ItemsBlock(items);
      var prelude := (line + "\n") + "\n";
      BlockAppend(prelude, Items(items));
      BlockAppend(prelude + Items(items), "\n");
      assert prelude == "### " + title + "\n\n";
    }
  }

  lemma {:induction false} BodyBlock(lists: seq<(string, seq<string>)>)
    requires forall i :: 0 <= i < |lists| ==> AllFree(lists[i].1, '\n') && Free(lists[i].0, '\n')
    ensures Block(Body(lists))
    ensures Body(lists) != "" ==> Body(lists)[0] == '#'
  {
    if lists != [] {
      var last := lists[|lists| - 1];
      BodyBlock(lists[..|lists| - 1]);
      GroupBlock(last.0, last.1);
      BlockAppend(Body(lists[..|lists| - 1]), Group(last.0, last.1));
    }
  }

  lemma NoChangesBlock()
    ensures Block(NO_CHANGES + "\n\n")
  {
    LineIsBlock(NO_CHANGES);
    LineIsBlock("");
    assert "" + "\n" == "\n";
    BlockAppend(NO_CHANGES + "\n", "\n");
    TwoNewlines(NO_CHANGES);
  }

  lemma BodyTextBlock(groups: Groups)
    requires groups.NewlineFree()
    ensures Block(BodyText(groups)) && BodyText(groups) != "" && !IsSpace(BodyText(groups)[0])
  {
    var lists := groups.Lists();
    assert Free(lists[0].0, '\n') && Free(lists[1].0, '\n') && Free(lists[2].0, '\n') && Free(lists[3].0, '\n');
    BodyBlock(lists);
    NoChangesBlock();
    assert NO_CHANGES[0] == 'N';
  }

  /** What a rendered section looks like to the code that places it. */
  ghost predicate SectionShape(version: string, s: string) {
    && Header(version) <= s
    && Header(version) <= TrimEnd(s)
    && NoRelease(s) && NoRelease(TrimEnd(s) + "\n\n")
    && EndsWith(s, '\n')
  }

  lemma TrimmedNoRelease(s: string)
    requires NoRelease(s)
    ensures NoRelease(TrimEnd(s) + "\n\n")
  {
    var t := TrimEnd(s);
    TrimEndFacts(s);
    assert forall i :: ReleaseAt(t + "\n\n", i) ==> i + 5 <= |t| by {
      assert forall i :: ReleaseAt(t + "\n\n", i) ==> (t + "\n\n")[i + 4] != '\n' && (t + "\n\n")[i + 4] == '[';
    }
    assert forall i :: ReleaseAt(t + "\n\n", i) ==> ReleaseAt(s, i);
  }

  /** A rendered section never contains a newline followed by a release heading. */
  lemma SectionHasShape(version: string, date: string, groups: Groups)
    requires Free(version, '\n') && Free(date, '\n') && groups.NewlineFree()
    ensures SectionShape(version, Section(version, date, groups))
  {
    var s := Section(version, date, groups);
    var body := BodyText(groups);
    BodyTextBlock(groups);
    LineIsBlock("");
    assert "" + "\n" == "\n";
    BlockAppend("\n", body);
    var line := Header(version) + date;
    LineIsBlock(line);
    AppendLines(line + "\n", "\n" + body);
    assert s == (line + "\n") + ("\n" + body);
    // the body's first character is not white space, so the heading survives trimEnd
    assert s[|line| + 2] == body[0];
    TrimEndFacts(s);
    assert |TrimEnd(s)| > |line| + 2;
    assert Header(version) <= s;
    TrimmedNoRelease(s);
  }
}

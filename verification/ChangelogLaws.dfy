/** What re-running the changelog generator does to the file. */
module ChangelogLaws {
  import opened Text
  import opened Changelog

  /** The characters a section puts after its last visible one are exactly one blank line. */
  predicate EndsClean(section: string) {
    TrimEnd(section) + "\n\n" == section
  }

  // ---- locating a section that was just placed ----

  /** No version heading starts before the end of `head`, even one completed by the heading that follows. */
  ghost predicate HeaderFree(version: string, head: string) {
    forall i :: 0 <= i < |head| ==> !MatchesAt(head + Header(version), Header(version), i)
  }

  lemma HeaderFreeAfterBlank(version: string, p: string)
    requires Free(version, '\n')
    requires forall i :: 0 <= i ==> !MatchesAt(p, Header(version), i)
    ensures HeaderFree(version, p + "\n\n")
  {
    var H := Header(version);
    var h := p + "\n\n";
    forall i | 0 <= i < |h| ensures !MatchesAt(h + H, H, i) {
      if i + |H| <= |p| {
        MatchInPrefix(p, h + H, H, i);
      } else {
        var j := if i <= |p| then |p| - i else 0;
        MatchChar(h + H, H, i, j);
        assert (h + H)[i + j] == '\n' && H[j] != '\n';
      }
    }
  }

  lemma {:induction false} HeaderFreeBefore(version: string, content: string, k: nat)
    requires IndexFrom(content, Header(version), 0) == k
    ensures k + |Header(version)| <= |content|
    ensures HeaderFree(version, content[..k])
  {
    var H := Header(version);
    IndexFacts(content, H, 0);
    var upTo := content[..k + |H|];
    assert content[..k] + H == upTo;
    forall i | 0 <= i < k ensures !MatchesAt(upTo, H, i) {
      assert !MatchesAt(content, H, i);
      if i + |H| <= |upTo| {
        MatchInPrefix(upTo, content, H, i);
      }
    }
  }

  lemma PrefixUnmatched(version: string, content: string, p: string)
    requires p <= content
    requires forall i :: 0 <= i && i + |Header(version)| <= |p| ==> !MatchesAt(content, Header(version), i)
    ensures forall i :: 0 <= i ==> !MatchesAt(p, Header(version), i)
  {
    forall i | 0 <= i ensures !MatchesAt(p, Header(version), i) {
      if i + |Header(version)| <= |p| {
        MatchInPrefix(p, content, Header(version), i);
      }
    }
  }

  lemma FindsHeader(version: string, head: string, tail: string)
    requires HeaderFree(version, head) && Header(version) <= tail
    ensures IndexFrom(head + tail, Header(version), 0) == |head|
  {
    var H := Header(version);
    var c := head + tail;
    MatchInSuffix(head, tail, H, 0);
    assert tail[0..0 + |H|] == H;
    assert head + H <= c;
    forall i | 0 <= i < |head| ensures !MatchesAt(c, H, i) {
      MatchInPrefix(head + H, c, H, i);
    }
    FoundAt(c, H, 0, |head|);
  }

  /** No release heading inside a placed section: the next one opens what follows it. */
  lemma FindsNext(head: string, placed: string, rest: string, from: nat)
    requires NoRelease(placed) && EndsWith(placed, '\n')
    requires rest == "" || OpensRelease(rest)
    requires |head| <= from < |head| + |placed|
    ensures SectionEnd(head + (placed + rest), from)
         == if rest == "" then |head| + |placed| else |head| + |placed| - 1
  {
    var tail := placed + rest;
    var c := head + tail;
    var end := |placed| - 1;
    assert forall j :: 0 <= j < |tail| ==> c[|head| + j] == tail[j];
    NoReleaseBeforeRest(placed, rest);
    forall i | from <= i && (i < |head| + end || rest == "") ensures !MatchesAt(c, RELEASE, i) {
      MatchInSuffix(head, tail, RELEASE, i - |head|);
      ReleaseAtMatches(tail, i - |head|);
    }
    IndexFacts(c, RELEASE, from);
    if rest != "" {
      MatchInSuffix(head, tail, RELEASE, end);
      ReleaseAtMatches(tail, end);
      FoundAt(c, RELEASE, from, |head| + end);
    }
  }

  lemma NoReleaseBeforeRest(placed: string, rest: string)
    requires NoRelease(placed) && EndsWith(placed, '\n')
    requires rest == "" || OpensRelease(rest)
    ensures forall i :: i < |placed| - 1 ==> !ReleaseAt(placed + rest, i)
    ensures rest == "" ==> NoRelease(placed + rest)
    ensures rest != "" ==> ReleaseAt(placed + rest, |placed| - 1)
  {
    var tail := placed + rest;
    var end := |placed| - 1;
    assert tail[end] == '\n';
    forall i | i < end ensures !ReleaseAt(tail, i) {
      assert !ReleaseAt(placed, i);
    }
    if rest == "" {
      assert tail == placed;
    } else {
      assert tail[end + 1] == rest[0] && tail[end + 2] == rest[1] && tail[end + 3] == rest[2]
        && tail[end + 4] == rest[3];
    }
  }

  /** A placed section is found again, with the same text around it. */
  lemma LocatePlaced(version: string, head: string, placed: string, rest: string)
    requires Free(version, '\n') && HeaderFree(version, head)
    requires Header(version) <= placed && NoRelease(placed) && EndsWith(placed, '\n')
    requires rest == "" || OpensRelease(rest)
    ensures Locate(version, head + (placed + rest)) == Site(ReplaceTail(head, "\n\n"), rest, true)
  {
    var c := head + (placed + rest);
    var from := |head| + |Header(version)|;
    assert Locate(version, c) == ExistingSite(c, |head|, from) by {
      FindsHeader(version, head, placed + rest);
      LocateFound(version, c, |head|);
    }
    HeaderIsShorter(version, placed);
    SiteAround(head, placed, rest, from);
  }

  lemma HeaderIsShorter(version: string, placed: string)
    requires Header(version) <= placed && EndsWith(placed, '\n')
    ensures |Header(version)| < |placed|
  {
    var H := Header(version);
    assert placed[|H| - 1] == H[|H| - 1] == ' ';
  }

  lemma SiteAround(head: string, placed: string, rest: string, from: nat)
    requires NoRelease(placed) && EndsWith(placed, '\n') && (rest == "" || OpensRelease(rest))
    requires |head| <= from < |head| + |placed|
    ensures ExistingSite(head + (placed + rest), |head|, from) == Site(ReplaceTail(head, "\n\n"), rest, true)
  {
    var c := head + (placed + rest);
    FindsNext(head, placed, rest, from);
    assert c[..|head|] == head;
    if rest == "" {
      assert c[|c|..] == "";
    } else {
      var tail := c[|head| + |placed| - 1..];
      assert tail[0] == '\n' && tail[1..] == rest;
      assert TrimStart(tail) == TrimStart(rest) == rest;
    }
  }

  // ---- the place found in any file ----

  ghost predicate SiteShape(version: string, site: Site) {
    && HeaderFree(version, site.head)
    && ReplaceTail(site.head, "\n\n") == site.head
    && (site.rest == "" || OpensRelease(site.rest))
  }

  lemma BlankTailKept(p: string)
    requires !EndsWith(p, '\n')
    ensures ReplaceTail(p + "\n\n", "\n\n") == p + "\n\n"
  {
    TwoNewlines(p);
    StripOne(p + "\n");
    StripOne(p);
  }

  lemma StripOne(p: string)
    ensures StripNewlines(p + "\n") == StripNewlines(p)
  {
    assert (p + "\n")[..|p + "\n"| - 1] == p;
  }

  lemma RestOpens(content: string, from: nat)
    requires from <= |content|
    ensures var rest := TrimStart(content[SectionEnd(content, from)..]); rest == "" || OpensRelease(rest)
  {
    var end := SectionEnd(content, from);
    ReleaseIndex(content, from);
    if IndexFrom(content, RELEASE, from) != -1 {
      var tail := content[end..];
      assert tail[1] == '#';
      assert TrimStart(tail) == tail[1..];
    }
  }

  lemma LocateShape(version: string, content: string)
    requires Free(version, '\n')
    ensures SiteShape(version, Locate(version, content))
  {
    var k := IndexFrom(content, Header(version), 0);
    if k != -1 {
      ExistingShape(version, content, k);
    } else {
      NewShape(version, content);
    }
  }

  lemma {:induction false} ExistingShape(version: string, content: string, k: nat)
    requires Free(version, '\n') && IndexFrom(content, Header(version), 0) == k
    ensures k + |Header(version)| <= |content|
    ensures SiteShape(version, ExistingSite(content, k, k + |Header(version)|))
  {
    var before := content[..k];
    RestOpens(content, k + |Header(version)|);
    if EndsWith(before, '\n') {
      StripNewlinesFacts(before);
      BlankAfter(version, content, StripNewlines(before));
    } else {
      HeaderFreeBefore(version, content, k);
    }
  }

  lemma NewShape(version: string, content: string)
    requires Free(version, '\n') && IndexFrom(content, Header(version), 0) == -1
    ensures SiteShape(version, NewSite(content))
  {
    var first := IndexFrom(content, RELEASE, 0);
    if first == -1 {
      TrimEndFacts(content);
      BlankAfter(version, content, TrimEnd(content));
    } else {
      ReleaseIndex(content, 0);
      StripNewlinesFacts(content[..first + 1]);
      BlankAfter(version, content, StripNewlines(content[..first + 1]));
    }
  }

  lemma BlankAfter(version: string, content: string, p: string)
    requires Free(version, '\n') && p <= content && !EndsWith(p, '\n')
    requires var k := IndexFrom(content, Header(version), 0); k == -1 || |p| <= k
    ensures HeaderFree(version, p + "\n\n")
    ensures ReplaceTail(p + "\n\n", "\n\n") == p + "\n\n"
  {
    IndexFacts(content, Header(version), 0);
    PrefixUnmatched(version, content, p);
    HeaderFreeAfterBlank(version, p);
    BlankTailKept(p);
  }

  // ---- absorption ----

  lemma EnsureNewlineAppend(head: string, placed: string, rest: string)
    requires EndsWith(placed, '\n')
    ensures var rest' := if rest == "" then "" else EnsureNewline(rest);
      && EnsureNewline(head + placed + rest) == head + (placed + rest')
      && EnsureNewline(head + placed + rest') == head + (placed + rest')
  {
    if rest == "" {
      assert head + placed + rest == head + (placed + rest);
    } else {
      assert (head + placed + rest)[|head| + |placed| + |rest| - 1] == rest[|rest| - 1];
      assert head + placed + rest + "\n" == head + (placed + (rest + "\n"));
      assert head + placed + rest == head + (placed + rest);
      assert head + placed + (rest + "\n") == head + (placed + (rest + "\n"));
    }
  }

  lemma Cancel(head: string, x: string, y: string, rest: string)
    ensures head + (x + rest) == head + (y + rest) <==> x == y
  {
    if head + (x + rest) == head + (y + rest) {
      assert |x| == |y|;
      assert x == (head + (x + rest))[|head|..|head| + |x|];
      assert y == (head + (y + rest))[|head|..|head| + |y|];
    }
  }

  lemma PlacedShape(version: string, site: Site, section: string)
    requires SectionShape(version, section)
    ensures var placed := Placed(site, section);
      Header(version) <= placed && NoRelease(placed) && EndsWith(placed, '\n')
  {
  }

  /** Placing a second section over a first one, for any two well-shaped sections. */
  lemma UpdateTwice(version: string, content: string, s1: string, s2: string)
    requires Free(version, '\n') && SectionShape(version, s1) && SectionShape(version, s2)
    ensures Updated(version, s2, Updated(version, s1, content)) == Updated(version, s2, content)
            <==> Contains(content, Header(version)) || EndsClean(s2)
  {
    var site := Locate(version, content);
    LocateShape(version, content);
    var p1, p2, t2 := Placed(site, s1), Placed(site, s2), TrimEnd(s2) + "\n\n";
    PlacedShape(version, site, s1);
    PlacedShape(version, site, s2);
    var rest' := if site.rest == "" then "" else EnsureNewline(site.rest);
    EnsureNewlineAppend(site.head, p1, site.rest);
    EnsureNewlineAppend(site.head, p2, site.rest);
    EnsureNewlineAppend(site.head, t2, site.rest);
    assert rest' != "" ==> OpensRelease(rest');
    LocatePlaced(version, site.head, p1, rest');
    assert Updated(version, s2, Updated(version, s1, content)) == site.head + (t2 + rest');
    Cancel(site.head, t2, p2, rest');
  }

  // ---- when a rendered section ends in exactly one blank line ----

  /** The entry printed last, or nothing when every group is empty. */
  function LastEntry(lists: seq<(string, seq<string>)>): (r: seq<string>)
    ensures |r| <= 1
  {
    if lists == [] then [] else
      var items := lists[|lists| - 1].1;
      if items != [] then [items[|items| - 1]] else LastEntry(lists[..|lists| - 1])
  }

  predicate VisibleEnd(groups: Groups) {
    var last := LastEntry(groups.Lists());
    last == [] || (last[0] != "" && !IsSpace(last[0][|last[0]| - 1]))
  }

  lemma BlankTail(x: string)
    requires x != ""
    ensures EndsClean(x + "\n\n") <==> !IsSpace(x[|x| - 1])
  {
    var s := x + "\n\n";
    TrimEndFacts(s);
    if !IsSpace(x[|x| - 1]) {
      TrimEndFixes(x, "\n\n");
    } else {
      assert s[|x| - 1] == x[|x| - 1];
      assert |TrimEnd(s)| != |x|;
    }
  }

  lemma Regroup(a: string, b: string, c: string, d: string)
    ensures a + (b + (c + (d + "\n")) + "\n") == a + (b + c) + d + "\n\n"
  {
  }

  lemma {:induction false} BodyEnds(lists: seq<(string, seq<string>)>) returns (before: string)
    ensures LastEntry(lists) == [] ==> Body(lists) == ""
    ensures LastEntry(lists) != [] ==> Body(lists) == before + ("- " + LastEntry(lists)[0]) + "\n\n"
  {
    before := "";
    if lists != [] {
      var (title, items) := lists[|lists| - 1];
      if items == [] {
        before := BodyEnds(lists[..|lists| - 1]);
        assert Body(lists) == Body(lists[..|lists| - 1]) + "";
      } else {
        var n := |items| - 1;
        var earlier, heading, printed := Body(lists[..|lists| - 1]), "### " + title + "\n\n", Items(items[..n]);
        before := earlier + (heading + printed);
        Regroup(earlier, heading, printed, "- " + items[n]);
      }
    }
  }

  /** Exactly when the text rendered last is visible up to its end. */
  lemma SectionEndsClean(version: string, date: string, groups: Groups)
    ensures EndsClean(Section(version, date, groups)) <==> VisibleEnd(groups)
  {
    var head := Header(version) + date + "\n\n";
    var last := LastEntry(groups.Lists());
    var before := BodyEnds(groups.Lists());
    if last == [] {
      assert NO_CHANGES[|NO_CHANGES| - 1] == '.';
      BlankTail(head + NO_CHANGES);
      assert head + NO_CHANGES + "\n\n" == Section(version, date, groups);
    } else {
      EntryEndsClean(head, before, last[0], Body(groups.Lists()));
    }
  }

  lemma EntryEndsClean(head: string, before: string, entry: string, body: string)
    requires body == before + ("- " + entry) + "\n\n"
    ensures EndsClean(head + body) <==> entry != "" && !IsSpace(entry[|entry| - 1])
    ensures body != ""
  {
    var shown := head + before + ("- " + entry);
    BlankTail(shown);
    assert shown + "\n\n" == head + body;
    assert shown[|shown| - 1] == ("- " + entry)[|entry| + 1];
  }

  /**
   * Regenerating a release replaces what an earlier run wrote, for every file and every two runs,
   * unless the file had no such release and the new section's last entry ends in white space.
   */
  lemma Absorption(version: string, content: string, date1: string, groups1: Groups, date2: string,
      groups2: Groups)
    requires Free(version, '\n') && Free(date1, '\n') && Free(date2, '\n')
    requires groups1.NewlineFree() && groups2.NewlineFree()
    ensures var s1, s2 := Section(version, date1, groups1), Section(version, date2, groups2);
      Updated(version, s2, Updated(version, s1, content)) == Updated(version, s2, content)
      <==> Contains(content, Header(version)) || VisibleEnd(groups2)
  {
    SectionHasShape(version, date1, groups1);
    SectionHasShape(version, date2, groups2);
    SectionEndsClean(version, date2, groups2);
    UpdateTwice(version, content, Section(version, date1, groups1), Section(version, date2, groups2));
  }

  /** The failing case exists: a first release whose only entry ends in a space is not stable. */
  lemma AbsorptionCanFail(date: string)
    requires Free(date, '\n')
    ensures var s := Section("1.0.0", date, Groups([], ["parser: "], [], []));
      Updated("1.0.0", s, Updated("1.0.0", s, "")) != Updated("1.0.0", s, "")
  {
    var groups := Groups([], ["parser: "], [], []);
    var lists := groups.Lists();
    assert lists[..3][..2] == lists[..2];
    assert LastEntry(lists) == ["parser: "];
    Absorption("1.0.0", "", date, groups, date, groups);
  }
}

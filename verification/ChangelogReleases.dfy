/** What placing a section does to the other releases of a changelog. */
module ChangelogReleases {
  import opened Lists
  import opened Text
  import opened Changelog
  import opened ChangelogLaws
  import opened ReleasePieces

  /** The first occurrence of the release's heading text starts a line of the file. */
  predicate StartsLine(version: string, content: string) {
    var k := IndexFrom(content, Header(version), 0);
    k == 0 || (k > 0 && content[k - 1] == '\n')
  }

  /** The block of a release starts with the rest of its heading. */
  predicate IsBlockOf(version: string, block: string) {
    version + "] - " <= block
  }

  // ---- the text around a heading ----

  lemma PlacedOpens(version: string, placed: string)
    requires Header(version) <= placed
    ensures OpensRelease(placed) && IsBlockOf(version, placed[4..])
  {
    var H := Header(version);
    var name := version + "] - ";
    assert H == "## [" + name;
    assert H[0] == '#' && H[1] == '#' && H[2] == ' ' && H[3] == '[';
    assert placed[..|H|] == H;
    assert placed[4..|H|] == name;
  }

  lemma HeaderChars(version: string, content: string, k: nat)
    requires k == IndexFrom(content, Header(version), 0)
    ensures k + |Header(version)| <= |content| && |Header(version)| >= 4
    ensures content[k] == '#' && content[k + 1] == '#' && content[k + 2] == ' ' && content[k + 3] == '['
  {
    var H := Header(version);
    assert H == "## [" + (version + "] - ");
    IndexFacts(content, H, 0);
    MatchChar(content, H, k, 0);
    MatchChar(content, H, k, 1);
    MatchChar(content, H, k, 2);
    MatchChar(content, H, k, 3);
  }

  lemma HeaderNames(version: string, content: string, k: nat, end: nat)
    requires k == IndexFrom(content, Header(version), 0)
    requires k + |Header(version)| <= end <= |content|
    ensures IsBlockOf(version, content[k + 4..end])
  {
    var H := Header(version);
    IndexFacts(content, H, 0);
    assert H == "## [" + (version + "] - ");
    assert content[k..k + |H|] == H;
    assert content[k + 4..k + |H|] == H[4..];
    assert content[k + 4..end][..|version| + 4] == content[k + 4..k + |H|];
  }

  lemma NoReleaseUntilNext(version: string, content: string, k: nat)
    requires Free(version, '\n') && k == IndexFrom(content, Header(version), 0)
    ensures k + |Header(version)| <= |content|
    ensures forall i :: k <= i < SectionEnd(content, k + |Header(version)|) ==> !ReleaseAt(content, i)
  {
    var H := Header(version);
    var from := k + |H|;
    IndexFacts(content, H, 0);
    ReleaseIndex(content, from);
    forall i | k <= i < SectionEnd(content, from) ensures !ReleaseAt(content, i) {
      if i < from {
        MatchChar(content, H, k, i - k);
        assert H[i - k] != '\n';
      }
    }
  }

  /** What follows the release whose heading ends at `from`. */
  function RestAfter(content: string, from: nat): string
    requires from <= |content|
  {
    var end := SectionEnd(content, from);
    if end == |content| then "" else content[end + 1..]
  }

  lemma RestAt(content: string, from: nat)
    requires from <= |content|
    ensures var end := SectionEnd(content, from);
      && (end == |content| || ReleaseAt(content, end))
      && TrimStart(content[end..]) == RestAfter(content, from)
      && (RestAfter(content, from) == "" || OpensRelease(RestAfter(content, from)))
      && (RestAfter(content, from) == "" <==> end == |content|)
      && (end < |content| ==> RestAfter(content, from)[4..] == content[end + 5..])
  {
    var end := SectionEnd(content, from);
    if end < |content| {
      ReleaseIndex(content, from);
      var tail := content[end..];
      assert tail[0] == '\n' && tail[1] == '#';
      assert TrimStart(tail) == tail[1..];
    }
  }

  lemma WithinSlice(content: string, start: nat, end: nat)
    requires start <= end <= |content|
    ensures content[start..][..end - start] == content[start..end]
    ensures end + 5 <= |content| ==> content[start..][end - start + 5..] == content[end + 5..]
  {
  }

  /** The pieces from `start` on, inside a heading that ends at `from`. */
  lemma PiecesFrom(content: string, start: nat, from: nat)
    requires start <= from <= |content|
    requires forall i :: start <= i < SectionEnd(content, from) ==> !ReleaseAt(content, i)
    ensures RestAfter(content, from) == "" || OpensRelease(RestAfter(content, from))
    ensures Pieces(content[start..]) == [content[start..SectionEnd(content, from)]] + After(RestAfter(content, from))
  {
    var end := SectionEnd(content, from);
    RestAt(content, from);
    PiecesUntil(content, start, end, RestAfter(content, from));
  }

  lemma PiecesUntil(content: string, start: nat, end: nat, rest: string)
    requires start <= end <= |content| && (end == |content| || ReleaseAt(content, end))
    requires forall i :: start <= i < end ==> !ReleaseAt(content, i)
    requires if end == |content| then rest == "" else OpensRelease(rest) && rest[4..] == content[end + 5..]
    ensures Pieces(content[start..]) == [content[start..end]] + After(rest)
  {
    var tail := content[start..];
    ReleasesOfParts(content, start);
    WithinSlice(content, start, end);
    if end == |content| {
      OnePiece(tail);
      assert tail == content[start..end];
    } else {
      FirstRelease(tail, end - start);
    }
  }

  /** The file cut at the heading of a release that starts a line. */
  lemma OwnBlock(version: string, content: string, k: nat) returns (block: string, rest: string)
    requires Free(version, '\n')
    requires StartsLine(version, content) && k == IndexFrom(content, Header(version), 0)
    ensures k + |Header(version)| <= |content| && IsBlockOf(version, block)
    ensures rest == RestAfter(content, k + |Header(version)|) && (rest == "" || OpensRelease(rest))
    ensures Blocks(content) == Pieces(("\n" + content)[..k]) + ([block] + After(rest))
  {
    block, rest := OwnTail(version, content, k);
    CutAtHeading(version, content, k);
  }

  lemma OwnTail(version: string, content: string, k: nat) returns (block: string, rest: string)
    requires Free(version, '\n') && k == IndexFrom(content, Header(version), 0)
    ensures k + |Header(version)| <= |content| && k + 4 <= |content| && IsBlockOf(version, block)
    ensures rest == RestAfter(content, k + |Header(version)|) && (rest == "" || OpensRelease(rest))
    ensures Pieces(content[k + 4..]) == [block] + After(rest)
  {
    NoReleaseUntilNext(version, content, k);
    var from := k + |Header(version)|;
    HeaderNames(version, content, k, SectionEnd(content, from));
    block, rest := content[k + 4..SectionEnd(content, from)], RestAfter(content, from);
    PiecesFrom(content, k + 4, from);
  }

  lemma {:induction false} CutAtHeading(version: string, content: string, k: nat)
    requires StartsLine(version, content) && k == IndexFrom(content, Header(version), 0)
    ensures k + 4 <= |content|
    ensures Blocks(content) == Pieces(("\n" + content)[..k]) + Pieces(content[k + 4..])
  {
    HeaderChars(version, content, k);
    var c := "\n" + content;
    assert c[k] == '\n' && c[k + 1] == '#' && c[k + 2] == '#' && c[k + 3] == ' ' && c[k + 4] == '[';
    SplitAtRelease(c, k);
    assert c[k + 5..] == content[k + 4..];
  }

  // ---- what update writes ----

  /** The text that update puts in front of a section at the start of a line ends a line. */
  lemma LeadBefore(content: string, k: nat) returns (p: string)
    requires k <= |content| && (k == 0 || content[k - 1] == '\n')
    ensures "\n" + ReplaceTail(content[..k], "\n\n") == p + "\n"
    ensures SameUpToNewlines(Pieces(p), Pieces(("\n" + content)[..k]))
  {
    if k == 0 {
      p := "";
      assert ("\n" + content)[..0] == "";
    } else {
      var q := content[..k - 1];
      assert content[..k] == q + "\n";
      StripOne(q);
      p := "\n" + StripNewlines(q) + "\n";
      assert ("\n" + content)[..k] == "\n" + q;
      RestoredLine("\n", q);
    }
  }

  lemma UpdatedBlocks(version: string, content: string, section: string, p: string, site: Site)
    requires SectionShape(version, section) && Locate(version, content) == site
    requires "\n" + site.head == p + "\n" && (site.rest == "" || OpensRelease(site.rest))
    ensures |Placed(site, section)| > 4
    ensures Blocks(Updated(version, section, content))
         == Pieces(p) + ([OwnPiece(Placed(site, section), site.rest)] + FinalNewline(After(site.rest)))
  {
    var placed := Placed(site, section);
    PlacedShape(version, site, section);
    PlacedOpens(version, placed);
    NewlineFirst(site.head, placed, site.rest, p);
    PiecesOfPlaced(p, placed, site.rest);
  }

  lemma NewlineFirst(head: string, placed: string, rest: string, p: string)
    requires "\n" + head == p + "\n" && placed != ""
    ensures "\n" + EnsureNewline(head + placed + rest) == EnsureNewline(p + "\n" + placed + rest)
  {
    var s := head + placed + rest;
    Prepended("\n", head, placed, rest);
    EnsureAfter(s);
  }

  lemma Prepended(a: string, b: string, c: string, d: string)
    ensures a + (b + c + d) == a + b + c + d
  {
  }

  lemma EnsureAfter(s: string)
    requires s != ""
    ensures EnsureNewline("\n" + s) == "\n" + EnsureNewline(s)
  {
    assert ("\n" + s)[|s|] == s[|s| - 1];
    assert ("\n" + s) + "\n" == "\n" + (s + "\n");
  }

  // ---- replacing ----

  /** What a replaced release reads after its opening bracket. */
  function Replacement(section: string, last: bool): string
    requires |TrimEnd(section)| >= 4
  {
    TrimEnd(section)[4..] + if last then "\n\n" else "\n"
  }

  /** Block `j` is the release's and is replaced; every other block is kept up to final newlines. */
  predicate OnlyBlockChanged(version: string, section: string, b: seq<string>, n: seq<string>, j: nat) {
    && 1 <= j < |b| && |n| == |b|
    && |TrimEnd(section)| >= 4
    && IsBlockOf(version, b[j]) && n[j] == Replacement(section, j == |b| - 1)
    && SameUpToNewlines(n[..j], b[..j])
    && n[j + 1..] == FinalNewline(b[j + 1..])
  }

  lemma ChangedList(version: string, section: string, a: seq<string>, block: string,
      after: seq<string>, p: seq<string>)
    requires SameUpToNewlines(p, a) && IsBlockOf(version, block) && |TrimEnd(section)| >= 4
    ensures OnlyBlockChanged(version, section, a + ([block] + after),
                             p + ([Replacement(section, after == [])] + FinalNewline(after)), |a|)
  {
    var b, n, j := a + ([block] + after), p + ([Replacement(section, after == [])] + FinalNewline(after)), |a|;
    assert b[..j] == a && n[..j] == p && b[j + 1..] == after && n[j + 1..] == FinalNewline(after);
  }

  lemma TrimmedOpens(version: string, section: string)
    requires SectionShape(version, section)
    ensures |TrimEnd(section)| >= 4 && |TrimEnd(section) + "\n\n"| > 4
    ensures forall rest :: OwnPiece(TrimEnd(section) + "\n\n", rest) == Replacement(section, rest == "")
  {
    var t := TrimEnd(section);
    PlacedOpens(version, t);
    var s := t + "\n\n";
    assert s[4..] == t[4..] + "\n\n";
    assert s[4..|s| - 1] == t[4..] + "\n";
  }

  lemma {:induction false} OwnSite(version: string, content: string, k: nat)
    requires k == IndexFrom(content, Header(version), 0)
    ensures k + |Header(version)| <= |content|
    ensures Locate(version, content)
         == Site(ReplaceTail(content[..k], "\n\n"), RestAfter(content, k + |Header(version)|), true)
  {
    LocateFound(version, content, k);
    RestAt(content, k + |Header(version)|);
  }

  /**
   * Replacing a release whose heading starts a line changes that release's block and no other, up to
   * the newlines that end the block before it and the file.
   */
  lemma OthersKeptOnReplace(version: string, content: string, section: string) returns (j: nat)
    requires Free(version, '\n') && SectionShape(version, section)
    requires StartsLine(version, content)
    ensures OnlyBlockChanged(version, section, Blocks(content), Blocks(Updated(version, section, content)), j)
  {
    var k := IndexFrom(content, Header(version), 0);
    var before := ("\n" + content)[..k];
    j := |Pieces(before)|;
    var block, rest := OwnBlock(version, content, k);
    var p := LeadBefore(content, k);
    OwnSite(version, content, k);
    UpdatedBlocks(version, content, section, p, Locate(version, content));
    TrimmedOpens(version, section);
    AfterEmpty(rest);
    ChangedList(version, section, Pieces(before), block, After(rest), Pieces(p));
  }

  lemma AfterEmpty(rest: string)
    requires rest == "" || OpensRelease(rest)
    ensures After(rest) == [] <==> rest == ""
  {
  }

  // ---- inserting ----

  /** The new block stands at `j`; every old block is kept up to the newlines before it and at the end. */
  predicate Inserted(own: string, b: seq<string>, n: seq<string>, j: nat) {
    && 1 <= j <= |b| && |n| == |b| + 1
    && n[j] == own
    && SameUpToNewlines(n[..j], b[..j])
    && n[j + 1..] == FinalNewline(b[j..])
  }

  /** Where a file without the release gets it: first, unless the file's very first line opens a release. */
  function InsertionPoint(content: string): nat {
    if OpensRelease(content) then 2 else 1
  }

  lemma InsertedList(a: seq<string>, after: seq<string>, p: seq<string>, own: string)
    requires SameUpToNewlines(p, a)
    ensures Inserted(own, a + after, p + ([own] + FinalNewline(after)), |a|)
  {
    var b, n, j := a + after, p + ([own] + FinalNewline(after)), |a|;
    assert b[..j] == a && n[..j] == p && b[j..] == after && n[j + 1..] == FinalNewline(after);
  }

  lemma OpensAtFirst(s: string)
    ensures ReleaseAt("\n" + s, 0) <==> OpensRelease(s)
  {
    var c := "\n" + s;
    assert |s| >= 4 ==> c[1] == s[0] && c[2] == s[1] && c[3] == s[2] && c[4] == s[3];
  }

  /** The pieces of a text whose only possible heading is on its first line. */
  lemma IntroPieces(intro: string)
    requires NoRelease(intro)
    ensures Blocks(intro) == if OpensRelease(intro) then ["", intro[4..]] else ["\n" + intro]
  {
    var c := "\n" + intro;
    assert c[1..] == intro;
    OpensAtFirst(intro);
    ReleasesOfParts(c, 1);
    assert forall j :: ReleaseAt(c, j) && j > 0 ==> ReleaseAt(intro, j - 1);
    if OpensRelease(intro) {
      FirstRelease(c, 0);
      assert c[5..] == intro[4..] && c[..0] == "";
      ReleasesOfParts(intro, 4);
      OnePiece(intro[4..]);
    } else {
      OnePiece(c);
    }
  }

  /** The file cut before its first heading that follows a newline. */
  lemma {:induction false} CutAtFirst(content: string, first: nat)
    requires IndexFrom(content, RELEASE, 0) == first
    ensures first < |content| && OpensRelease(content[first + 1..]) && NoRelease(content[..first])
    ensures Blocks(content) == Blocks(content[..first]) + After(content[first + 1..])
    ensures OpensRelease(content) <==> OpensRelease(content[..first])
  {
    ReleaseIndex(content, 0);
    var c := "\n" + content;
    assert content == c[1..];
    ReleasesOfParts(c, 1);
    ReleasesOfParts(content, first);
    SplitAtRelease(c, first + 1);
    assert c[..first + 1] == "\n" + content[..first];
    assert c[first + 6..] == content[first + 1..][4..];
  }

  lemma {:induction false} NewSiteAt(content: string, first: nat)
    requires IndexFrom(content, RELEASE, 0) == first
    ensures first < |content|
    ensures NewSite(content) == Site(StripNewlines(content[..first]) + "\n\n", content[first + 1..], false)
  {
    ReleaseIndex(content, 0);
    assert content[..first + 1] == content[..first] + "\n";
    StripOne(content[..first]);
  }

  lemma IntroLead(intro: string) returns (p: string)
    requires NoRelease(intro)
    ensures "\n" + (StripNewlines(intro) + "\n\n") == p + "\n"
    ensures SameUpToNewlines(Pieces(p), Blocks(intro)) && |Blocks(intro)| == InsertionPoint(intro)
  {
    p := "\n" + StripNewlines(intro) + "\n";
    TwoNewlines("\n" + StripNewlines(intro));
    RestoredLine("\n", intro);
    IntroPieces(intro);
  }

  lemma InsertSite(version: string, content: string, first: nat)
    requires !Contains(content, Header(version)) && IndexFrom(content, RELEASE, 0) == first
    ensures first < |content| && OpensRelease(content[first + 1..]) && NoRelease(content[..first])
    ensures Locate(version, content) == Site(StripNewlines(content[..first]) + "\n\n", content[first + 1..], false)
  {
    CutAtFirst(content, first);
    LocateNew(version, content);
    NewSiteAt(content, first);
  }

  /** The updated file around the insertion point. */
  lemma InsertParts(version: string, content: string, section: string, first: nat)
    returns (p: string)
    requires Free(version, '\n') && SectionShape(version, section)
    requires !Contains(content, Header(version)) && IndexFrom(content, RELEASE, 0) == first
    ensures |section| > 4 && first < |content|
    ensures OpensRelease(content[first + 1..]) && NoRelease(content[..first])
    ensures SameUpToNewlines(Pieces(p), Blocks(content[..first]))
    ensures Blocks(Updated(version, section, content))
         == Pieces(p) + ([section[4..|section| - 1]] + FinalNewline(After(content[first + 1..])))
  {
    InsertSite(version, content, first);
    var site := Locate(version, content);
    p := IntroLead(content[..first]);
    UpdatedBlocks(version, content, section, p, site);
    assert Placed(site, section) == section && OwnPiece(section, site.rest) == section[4..|section| - 1];
  }

  /** A release new to the file is inserted whole, and every release of the file is kept. */
  lemma OthersKeptOnInsert(version: string, content: string, section: string)
    requires Free(version, '\n') && SectionShape(version, section)
    requires !Contains(content, Header(version)) && Contains(content, RELEASE)
    ensures |section| > 4
    ensures Inserted(section[4..|section| - 1], Blocks(content), Blocks(Updated(version, section, content)),
                     InsertionPoint(content))
  {
    var first := IndexFrom(content, RELEASE, 0);
    var p := InsertParts(version, content, section, first);
    CutAtFirst(content, first);
    IntroPieces(content[..first]);
    InsertedList(Blocks(content[..first]), After(content[first + 1..]), Pieces(p), section[4..|section| - 1]);
  }

  /** The same text up to white space at its end. */
  predicate SameVisible(a: seq<string>, b: seq<string>) {
    && |a| == |b| > 0
    && a[..|a| - 1] == b[..|b| - 1]
    && TrimEnd(Last(a)) == TrimEnd(Last(b))
  }

  lemma {:induction false} TrimJoin(a: string, w: string)
    requires forall i :: 0 <= i < |w| ==> IsSpace(w[i])
    ensures TrimEnd(a + w) == TrimEnd(a)
    decreases |w|
  {
    if w == "" {
      assert a + w == a;
    } else {
      assert (a + w)[..|a + w| - 1] == a + w[..|w| - 1];
      TrimJoin(a, w[..|w| - 1]);
    }
  }

  /** A file with no heading after its first line keeps what it shows and gets the release at its end. */
  lemma OthersKeptOnFirst(version: string, content: string, section: string)
    requires Free(version, '\n') && SectionShape(version, section)
    requires !Contains(content, Header(version)) && !Contains(content, RELEASE)
    ensures |section| > 4
    ensures var b, n, j := Blocks(content), Blocks(Updated(version, section, content)), InsertionPoint(content);
      j == |b| && |n| == j + 1 && n[j] == section[4..] && SameVisible(n[..j], b)
  {
    var text := TrimEnd(content);
    var p := "\n" + text + "\n";
    LocateNew(version, content);
    TwoNewlines("\n" + text);
    assert "\n" + (text + "\n\n") == p + "\n";
    UpdatedBlocks(version, content, section, p, Locate(version, content));
    ReleaseIndex(content, 0);
    IntroPieces(content);
    TrimmedIntro(content);
    var n := Blocks(Updated(version, section, content));
    assert n == Pieces(p) + [section[4..]];
    assert n[..|Pieces(p)|] == Pieces(p);
  }

  lemma {:induction false} TrimmedIntro(content: string)
    requires NoRelease(content)
    ensures SameVisible(Pieces("\n" + TrimEnd(content) + "\n"), Blocks(content))
  {
    var text := TrimEnd(content);
    TrimEndFacts(content);
    assert text == content[..|text|];
    ReleasesOfParts(content, |text|);
    var tail := content[|text|..];
    assert content == text + tail;
    assert OpensRelease(content) <==> OpensRelease(text) by {
      assert OpensRelease(content) ==> content[3] == '[';
    }
    TrailingNewline("\n" + text);
    TrimmedPieces(text, tail);
  }

  lemma TrimmedPieces(text: string, tail: string)
    requires NoRelease(text) && NoRelease(text + tail)
    requires forall i :: 0 <= i < |tail| ==> IsSpace(tail[i])
    requires OpensRelease(text + tail) <==> OpensRelease(text)
    ensures SameVisible(WithLast(Blocks(text), Last(Blocks(text)) + "\n"), Blocks(text + tail))
  {
    IntroPieces(text);
    IntroPieces(text + tail);
    if OpensRelease(text) {
      assert (text + tail)[4..] == text[4..] + tail;
      TrimSame(text[4..], tail);
    } else {
      Associative("\n", text, tail);
      TrimSame("\n" + text, tail);
    }
  }

  lemma TrimSame(a: string, w: string)
    requires forall i :: 0 <= i < |w| ==> IsSpace(w[i])
    ensures TrimEnd(a + "\n") == TrimEnd(a + w)
  {
    TrimJoin(a, "\n");
    TrimJoin(a, w);
  }

  // ---- the blank line ----

  /**
   * What stands before the section: nothing at the start of the file, the broken line after a quotation,
   * and otherwise text and exactly one blank line.
   */
  lemma OneBlankLine(version: string, content: string) returns (before: string)
    ensures var k, head := IndexFrom(content, Header(version), 0), Locate(version, content).head;
      if k == 0 then head == ""
      else if Quoted(version, content) then head == content[..k]
      else head == before + "\n\n" && !EndsWith(before, '\n')
  {
    var k := IndexFrom(content, Header(version), 0);
    var first := IndexFrom(content, RELEASE, 0);
    before := "";
    if k != -1 {
      LocateFound(version, content, k);
      StripNewlinesFacts(content[..k]);
      before := StripNewlines(content[..k]);
    } else if first == -1 {
      LocateNew(version, content);
      TrimEndFacts(content);
      before := TrimEnd(content);
    } else {
      LocateNew(version, content);
      NewSiteAt(content, first);
      StripNewlinesFacts(content[..first]);
      before := StripNewlines(content[..first]);
    }
  }

  // ---- a heading quoted in the middle of a line ----

  /** The first occurrence of the heading text stands inside a line. */
  predicate Quoted(version: string, content: string) {
    var k := IndexFrom(content, Header(version), 0);
    k > 0 && content[k - 1] != '\n'
  }

  /** No heading ends inside what follows a text that ends in the middle of a line. */
  lemma NoneAcross(x: string, y: string)
    requires x != "" && x[|x| - 1] != '\n' && NoRelease(y)
    requires OpensRelease(y)
    ensures forall j :: ReleaseAt(x + y, j) ==> j + 5 <= |x|
  {
    var s := x + y;
    assert s[|x|..] == y;
    ReleasesOfParts(s, |x|);
    forall j | ReleaseAt(s, j) ensures j + 5 <= |x| {
      assert !ReleaseAt(y, j - |x|);
      assert s[|x|] == '#' && s[|x| + 1] == '#' && s[|x| - 1] != '\n';
    }
  }

  /** What follows the quotation up to the next heading or the end of the file. */
  function QuotedNote(content: string, from: nat): string
    requires from <= |content|
  {
    content[from..SectionEnd(content, from)]
  }

  lemma NoneInRest(content: string, k: nat, end: nat, x: string, y: string)
    requires 0 < k <= end <= |content| && content[k - 1] != '\n'
    requires forall i :: k <= i < end ==> !ReleaseAt(content, i)
    requires x == "\n" + content[..k] && y == content[k..end] && OpensRelease(y)
    ensures x + y == "\n" + content[..end]
    ensures forall j :: ReleaseAt(x + y, j) ==> j + 5 <= |x|
  {
    NoneInPart(content, k, end);
    assert x[|x| - 1] == content[k - 1];
    NoneAcross(x, y);
    assert content[..end] == content[..k] + y;
    Associative("\n", content[..k], y);
  }

  lemma {:induction false} QuotedNoteText(version: string, content: string, k: nat, from: nat)
    requires k == IndexFrom(content, Header(version), 0) && from == k + |Header(version)| <= |content|
    ensures Header(version) + QuotedNote(content, from) == content[k..SectionEnd(content, from)]
    ensures OpensRelease(Header(version) + QuotedNote(content, from))
  {
    var H := Header(version);
    IndexFacts(content, H, 0);
    assert content[k..from] == H;
    assert content[k..SectionEnd(content, from)] == content[k..from] + content[from..SectionEnd(content, from)];
    assert H == "## [" + (version + "] - ");
    assert H[0] == '#' && H[1] == '#' && H[2] == ' ' && H[3] == '[';
  }

  lemma QuotedText(version: string, content: string, k: nat)
    requires Free(version, '\n') && Quoted(version, content) && k == IndexFrom(content, Header(version), 0)
    ensures k + |Header(version)| <= |content|
    ensures var from := k + |Header(version)|;
      var x, y := "\n" + content[..k], Header(version) + QuotedNote(content, from);
      && x + y == "\n" + content[..SectionEnd(content, from)]
      && forall j :: ReleaseAt(x + y, j) ==> j + 5 <= |x|
  {
    NoReleaseUntilNext(version, content, k);
    var from := k + |Header(version)|;
    QuotedNoteText(version, content, k, from);
    NoneInRest(content, k, SectionEnd(content, from), "\n" + content[..k], Header(version) + QuotedNote(content, from));
  }

  lemma NoneInPart(content: string, k: nat, end: nat)
    requires k <= end <= |content| && forall i :: k <= i < end ==> !ReleaseAt(content, i)
    ensures NoRelease(content[k..end])
  {
    assert forall j :: ReleaseAt(content[k..end], j) ==> ReleaseAt(content, k + j);
  }

  /** The file cut at the end of the block that quotes the heading. */
  lemma {:induction false} QuotedCut(version: string, content: string, k: nat, from: nat, x: string, y: string)
    requires Free(version, '\n') && Quoted(version, content) && k == IndexFrom(content, Header(version), 0)
    requires from == k + |Header(version)| <= |content|
    requires x == "\n" + content[..k] && y == Header(version) + QuotedNote(content, from)
    ensures RestAfter(content, from) == "" || OpensRelease(RestAfter(content, from))
    ensures Blocks(content) == WithLast(Pieces(x), Last(Pieces(x)) + y) + After(RestAfter(content, from))
  {
    QuotedText(version, content, k);
    RestAt(content, from);
    CutAtEnd(content, SectionEnd(content, from), RestAfter(content, from));
    AppendLast(x, y);
  }

  lemma CutAtEnd(content: string, end: nat, rest: string)
    requires end <= |content| && (end == |content| || ReleaseAt(content, end))
    requires rest == if end == |content| then "" else content[end + 1..]
    requires end < |content| ==> OpensRelease(rest)
    ensures Blocks(content) == Pieces("\n" + content[..end]) + After(rest)
  {
    var c := "\n" + content;
    if end == |content| {
      assert content[..end] == content;
    } else {
      assert c[1..] == content;
      ReleasesOfParts(c, 1);
      SplitAtRelease(c, end + 1);
      assert c[..end + 1] == "\n" + content[..end] && c[end + 6..] == rest[4..];
    }
  }

  /** Where a piece other than the first comes from. */
  lemma {:induction false} PieceAt(s: string, j: nat) returns (m: nat)
    requires 1 <= j < |Pieces(s)|
    ensures ReleaseAt(s, m) && m + 5 + |Pieces(s)[j]| <= |s|
    ensures s[m + 5..m + 5 + |Pieces(s)[j]|] == Pieces(s)[j]
    decreases |s|
  {
    var i := FirstOrNone(s);
    if i == -1 {
      OnePiece(s);
      assert false;
    }
    FirstRelease(s, i);
    var tail := s[i + 5..];
    if j == 1 {
      m := i;
      FirstPiece(tail);
    } else {
      var t := PieceAt(tail, j - 1);
      m := i + 5 + t;
    }
  }

  lemma FirstPiece(s: string)
    ensures Pieces(s)[0] <= s
  {
  }

  /** No block up to the quotation is the release's. */
  lemma QuotedNotOwn(version: string, content: string, k: nat)
    requires Free(version, '\n') && Quoted(version, content) && k == IndexFrom(content, Header(version), 0)
    ensures k + |Header(version)| <= |content|
    ensures var x, y := "\n" + content[..k], Header(version) + QuotedNote(content, k + |Header(version)|);
      forall j :: 1 <= j < |Pieces(x)| ==> !IsBlockOf(version, WithLast(Pieces(x), Last(Pieces(x)) + y)[j])
  {
    QuotedText(version, content, k);
    var x, y := "\n" + content[..k], Header(version) + QuotedNote(content, k + |Header(version)|);
    AppendLast(x, y);
    forall j | 1 <= j < |Pieces(x)| ensures !IsBlockOf(version, Pieces(x + y)[j]) {
      NotOwnPiece(version, content, k, x + y, j);
    }
  }

  lemma NotOwnPiece(version: string, content: string, k: nat, s: string, j: nat)
    requires k == IndexFrom(content, Header(version), 0) && s <= "\n" + content
    requires forall m :: ReleaseAt(s, m) ==> m + 5 <= k + 1
    requires 1 <= j < |Pieces(s)|
    ensures !IsBlockOf(version, Pieces(s)[j])
  {
    var m := PieceAt(s, j);
    if IsBlockOf(version, Pieces(s)[j]) {
      OwnHeadingAt(version, content, s, m, Pieces(s)[j]);
      IndexFacts(content, Header(version), 0);
      assert false;
    }
  }

  lemma OwnHeadingAt(version: string, content: string, s: string, m: nat, piece: string)
    requires s <= "\n" + content && ReleaseAt(s, m) && IsBlockOf(version, piece)
    requires m + 5 + |piece| <= |s| && s[m + 5..m + 5 + |piece|] == piece
    ensures MatchesAt(content, Header(version), m)
  {
    var H, name := Header(version), version + "] - ";
    assert H == "## [" + name;
    var c := "\n" + content;
    assert piece[..|name|] == name;
    assert c[m + 1..m + 5] == "## [";
    assert c[m + 5..m + 5 + |name|] == name by { assert s[m + 5..m + 5 + |name|] == piece[..|name|]; }
    assert content[m..m + |H|] == c[m + 1..m + 5] + c[m + 5..m + 5 + |name|];
  }

  /**
   * Block `i` quoted the heading after `u`: the section stands there now, `note` is gone, every other block
   * is kept, and none up to this one is the release's.
   */
  ghost predicate QuoteReplaced(version: string, section: string, b: seq<string>, n: seq<string>, i: nat, u: string,
      note: string)
  {
    && i < |b| == |n|
    && b[i] == u + (Header(version) + note)
    && n[i] == u + TrimEnd(section) + (if i == |b| - 1 then "\n\n" else "\n")
    && n[..i] == b[..i] && n[i + 1..] == FinalNewline(b[i + 1..])
    && forall j :: 1 <= j <= i ==> !IsBlockOf(version, b[j])
  }

  /** Update writes the section into the line and drops everything that followed the quotation. */
  lemma QuotedReplaced(version: string, content: string, section: string)
    returns (i: nat, u: string, note: string)
    requires Free(version, '\n') && SectionShape(version, section) && Quoted(version, content)
    ensures QuoteReplaced(version, section, Blocks(content), Blocks(Updated(version, section, content)), i, u, note)
    ensures |Header(version)| + |note| <= |content|
  {
    var k := IndexFrom(content, Header(version), 0);
    HeaderChars(version, content, k);
    var from := k + |Header(version)|;
    var x, rest := "\n" + content[..k], RestAfter(content, from);
    i, u, note := |Pieces(x)| - 1, Last(Pieces(x)), QuotedNote(content, from);
    QuotedCut(version, content, k, from, x, Header(version) + note);
    assert |Header(version)| + |note| <= |content|;
    QuotedUpdate(version, content, section, k, rest);
    AfterEmpty(rest);
    assert forall j :: 1 <= j <= i ==> !IsBlockOf(version, WithLast(Pieces(x), u + (Header(version) + note))[j]) by {
      QuotedNotOwn(version, content, k);
    }
    QuotedLists(version, section, Pieces(x), note, After(rest));
  }

  lemma QuotedLists(version: string, section: string, a: seq<string>, note: string,
      after: seq<string>)
    requires a != []
    requires forall j :: 1 <= j < |a| ==> !IsBlockOf(version, WithLast(a, Last(a) + (Header(version) + note))[j])
    ensures QuoteReplaced(version, section,
                          WithLast(a, Last(a) + (Header(version) + note)) + after,
                          WithLast(a, Last(a) + TrimEnd(section) + (if after == [] then "\n\n" else "\n"))
                            + FinalNewline(after),
                          |a| - 1, Last(a), note)
  {
    var b := WithLast(a, Last(a) + (Header(version) + note)) + after;
    var n := WithLast(a, Last(a) + TrimEnd(section) + (if after == [] then "\n\n" else "\n")) + FinalNewline(after);
    assert b[|a|..] == after && n[|a|..] == FinalNewline(after);
  }

  lemma QuotedUpdate(version: string, content: string, section: string, k: nat, rest: string)
    requires SectionShape(version, section) && Quoted(version, content) && k == IndexFrom(content, Header(version), 0)
    requires k + |Header(version)| <= |content| && rest == RestAfter(content, k + |Header(version)|)
    requires rest == "" || OpensRelease(rest)
    ensures var x := "\n" + content[..k];
      Blocks(Updated(version, section, content))
      == WithLast(Pieces(x), Last(Pieces(x)) + TrimEnd(section) + (if rest == "" then "\n\n" else "\n"))
       + FinalNewline(After(rest))
  {
    var rest' := if rest == "" then "" else EnsureNewline(rest);
    QuotedUpdateText(version, content, section, k, rest, rest');
    PlacedOpens(version, TrimEnd(section));
    FinalNewlinePieces(rest);
    QuotedPieces("\n" + content[..k], TrimEnd(section), rest');
  }

  lemma QuotedUpdateText(version: string, content: string, section: string, k: nat, rest: string,
      rest': string)
    requires Quoted(version, content) && k == IndexFrom(content, Header(version), 0)
    requires k + |Header(version)| <= |content| && rest == RestAfter(content, k + |Header(version)|)
    requires rest' == if rest == "" then "" else EnsureNewline(rest)
    ensures "\n" + Updated(version, section, content) == "\n" + content[..k] + (TrimEnd(section) + "\n\n" + rest')
  {
    OwnSite(version, content, k);
    var x, placed := content[..k], TrimEnd(section) + "\n\n";
    assert x[|x| - 1] != '\n';
    EnsureNewlineAppend(x, placed, rest);
    assert "\n" + (x + (placed + rest')) == "\n" + x + (placed + rest');
  }

  lemma QuotedPieces(x: string, t: string, rest: string)
    requires x != "" && x[|x| - 1] != '\n'
    requires OpensRelease(t) && NoRelease(t + "\n\n") && (rest == "" || OpensRelease(rest))
    ensures Pieces(x + (t + "\n\n" + rest))
         == WithLast(Pieces(x), Last(Pieces(x)) + t + (if rest == "" then "\n\n" else "\n")) + After(rest)
  {
    var y := t + if rest == "" then "\n\n" else "\n";
    assert forall j :: ReleaseAt(y, j) ==> ReleaseAt(t + "\n\n", j);
    NoneAcross(x, y);
    AppendLast(x, y);
    assert Last(Pieces(x)) + y == Last(Pieces(x)) + t + (if rest == "" then "\n\n" else "\n");
    var s := x + (t + "\n\n" + rest);
    if rest == "" {
      assert s == x + y;
    } else {
      var at := |x| + |y|;
      assert s[at] == '\n' && s[at + 1] == rest[0] && s[at + 2] == rest[1] && s[at + 3] == rest[2]
        && s[at + 4] == rest[3];
      SplitAtRelease(s, at);
      assert s[..at] == x + y && s[at + 5..] == rest[4..];
    }
  }

  // ---- when the other releases are kept ----

  /** Placing this section changes the block of the release and no other. */
  ghost predicate OwnBlockOnly(version: string, content: string, section: string) {
    exists j: nat :: OnlyBlockChanged(version, section, Blocks(content), Blocks(Updated(version, section, content)), j)
  }

  predicate Printable(date: string, groups: Groups) {
    Free(date, '\n') && groups.NewlineFree()
  }

  /**
   * For a file that has the release's heading text: every regenerated section changes the release's own
   * block only, exactly when the first occurrence of that text starts a line.
   */
  lemma ReplaceExact(version: string, content: string)
    requires Free(version, '\n') && Contains(content, Header(version))
    ensures (forall date, groups ::
      Printable(date, groups) ==> OwnBlockOnly(version, content, Section(version, date, groups)))
       <==> StartsLine(version, content)
  {
    if StartsLine(version, content) {
      forall date, groups | Printable(date, groups)
        ensures OwnBlockOnly(version, content, Section(version, date, groups)) {
        SectionHasShape(version, date, groups);
        var j := OthersKeptOnReplace(version, content, Section(version, date, groups));
      }
    } else {
      var date := seq(|content|, _ => 'x');
      QuotedBreaks(version, content, date);
      assert Printable(date, Groups([], [], [], []));
    }
  }

  lemma QuotedBreaks(version: string, content: string, date: string)
    requires Free(version, '\n') && Quoted(version, content)
    requires Free(date, '\n') && |date| == |content|
    ensures !OwnBlockOnly(version, content, Section(version, date, Groups([], [], [], [])))
  {
    var section := Section(version, date, Groups([], [], [], []));
    LongSection(version, date);
    var i, u, note := QuotedReplaced(version, content, section);
    var b, n := Blocks(content), Blocks(Updated(version, section, content));
    StrippedLine(u, TrimEnd(section), if i == |b| - 1 then "\n\n" else "\n");
    NoOwnChange(version, section, b, n, i);
  }

  /** The text of a section without entries, up to its last blank line. */
  function EmptySection(version: string, date: string): string {
    Header(version) + date + "\n\n" + NO_CHANGES
  }

  lemma EmptyText(version: string, date: string)
    ensures Section(version, date, Groups([], [], [], [])) == EmptySection(version, date) + "\n\n"
  {
    EmptyBody(Groups([], [], [], []).Lists());
  }

  lemma LongSection(version: string, date: string)
    requires Free(version, '\n') && Free(date, '\n')
    ensures var s := Section(version, date, Groups([], [], [], []));
      SectionShape(version, s) && |TrimEnd(s)| > |date| && !EndsWith(TrimEnd(s), '\n')
  {
    SectionHasShape(version, date, Groups([], [], [], []));
    EmptyText(version, date);
    var visible := EmptySection(version, date);
    assert visible[|visible| - 1] == NO_CHANGES[|NO_CHANGES| - 1] == '.';
    TrimEndFixes(visible, "\n\n");
  }

  lemma StrippedLine(u: string, t: string, tail: string)
    requires t != "" && !EndsWith(t, '\n') && (tail == "\n" || tail == "\n\n")
    ensures StripNewlines(u + t + tail) == u + t
  {
    StripOne(u + t);
    StripOne(u + t + "\n");
    TwoNewlines(u + t);
  }

  /** A block in front of the changed one is no longer than it was, but for newlines. */
  lemma ChangeKeeps(version: string, section: string, b: seq<string>, n: seq<string>, j: nat, i: nat)
    requires OnlyBlockChanged(version, section, b, n, j) && i < j
    ensures |StripNewlines(n[i])| <= |b[i]|
  {
    var nj, bj := n[..j], b[..j];
    StripNewlinesFacts(b[i]);
    StripNewlinesFacts(n[i]);
    assert nj[i] == n[i] && bj[i] == b[i];
    if i < j - 1 {
      assert nj[..j - 1][i] == bj[..j - 1][i];
    }
  }

  /** A block that grew beyond its old length is changed, and no block up to it is the release's. */
  lemma NoOwnChange(version: string, section: string, b: seq<string>, n: seq<string>, i: nat)
    requires i < |b| == |n| && |StripNewlines(n[i])| > |b[i]|
    requires forall j :: 1 <= j <= i ==> !IsBlockOf(version, b[j])
    ensures forall j: nat :: !OnlyBlockChanged(version, section, b, n, j)
  {
    forall j: nat ensures !OnlyBlockChanged(version, section, b, n, j) {
      if OnlyBlockChanged(version, section, b, n, j) {
        ChangeKeeps(version, section, b, n, j, i);
        assert false;
      }
    }
  }

  /** A file whose introduction quotes a heading is one where regenerating that release breaks another block. */
  lemma QuotedExample()
    ensures var content := "see ## [1.0.0] - below";
      !(forall date, groups ::
        Printable(date, groups) ==> OwnBlockOnly("1.0.0", content, Section("1.0.0", date, groups)))
  {
    var content, H := "see ## [1.0.0] - below", Header("1.0.0");
    QuotedAtFour(content, H);
    assert !StartsLine("1.0.0", content);
    ReplaceExact("1.0.0", content);
  }

  lemma QuotedAtFour(content: string, H: string)
    requires content == "see ## [1.0.0] - below" && H == Header("1.0.0")
    ensures IndexFrom(content, H, 0) == 4 && content[3] == ' '
  {
    assert H == "## [1.0.0] - ";
    assert content == "see " + (H + "below");
    assert content[3] == "see "[3] && content[4..4 + |H|] == H;
    forall i | 0 <= i < 4 ensures !MatchesAt(content, H, i) {
      MatchChar(content, H, i, 0);
      assert content[i] == "see "[i];
    }
    FoundAt(content, H, 0, 4);
  }
}

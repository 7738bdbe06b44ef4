/** A rendered release section shows every entry of its groups: a line reader gets them back. */
module ChangelogReader {
  import opened Text
  import opened Changelog

  function Unlines(lines: seq<string>): string {
    if lines == [] then "" else Unlines(lines[..|lines| - 1]) + (lines[|lines| - 1] + "\n")
  }

  lemma {:induction false} UnlinesAppend(a: seq<string>, b: seq<string>)
    ensures Unlines(a + b) == Unlines(a) + Unlines(b)
    decreases |b|
  {
    if b == [] {
      assert a + b == a;
    } else {
      var n := |b| - 1;
      assert (a + b)[..|a| + n] == a + b[..n];
      UnlinesAppend(a, b[..n]);
    }
  }

  function ItemLines(items: seq<string>): seq<string> {
    seq(|items|, i requires 0 <= i < |items| => "- " + items[i])
  }

  function GroupLines(title: string, items: seq<string>): seq<string> {
    if items == [] then [] else ["### " + title, ""] + (ItemLines(items) + [""])
  }

  function BodyLines(lists: seq<(string, seq<string>)>): seq<string> {
    if lists == [] then [] else BodyLines(lists[..|lists| - 1]) + GroupLines(lists[|lists| - 1].0, lists[|lists| - 1].1)
  }

  lemma {:induction false} ItemsAsLines(items: seq<string>)
    ensures Items(items) == Unlines(ItemLines(items))
    decreases |items|
  {
    if items != [] {
      ItemsAsLines(items[..|items| - 1]);
      assert ItemLines(items)[..|items| - 1] == ItemLines(items[..|items| - 1]);
    }
  }

  lemma OneLine(line: string)
    ensures Unlines([line]) == line + "\n"
  {
    assert [line][..0] == [];
  }

  lemma GroupAsLines(title: string, items: seq<string>)
    ensures Group(title, items) == Unlines(GroupLines(title, items))
  {
    if items != [] {
      ItemsAsLines(items);
      OneLine("### " + title);
      OneLine("");
      UnlinesAppend(["### " + title], [""]);
      UnlinesAppend(ItemLines(items), [""]);
      UnlinesAppend(["### " + title] + [""], ItemLines(items) + [""]);
      assert ["### " + title, ""] == ["### " + title] + [""];
      TwoNewlines("### " + title);
      Reassociate("### " + title + "\n\n", Items(items));
    }
  }

  lemma Reassociate(a: string, b: string)
    ensures a + (b + ("" + "\n")) == a + b + "\n"
  {
  }

  lemma {:induction false} BodyAsLines(lists: seq<(string, seq<string>)>)
    ensures Body(lists) == Unlines(BodyLines(lists))
    decreases |lists|
  {
    if lists != [] {
      var last := lists[|lists| - 1];
      BodyAsLines(lists[..|lists| - 1]);
      GroupAsLines(last.0, last.1);
      UnlinesAppend(BodyLines(lists[..|lists| - 1]), GroupLines(last.0, last.1));
    }
  }

  // ---- the reader ----

  /** The groups read so far, in heading order; entries belong to the last heading. */
  function ReadLine(seen: seq<(string, seq<string>)>, line: string): seq<(string, seq<string>)> {
    if StartsWith(line, "### ") then seen + [(line[4..], [])]
    else if StartsWith(line, "- ") && seen != [] then
      var n := |seen| - 1;
      seen[..n] + [(seen[n].0, seen[n].1 + [line[2..]])]
    else seen
  }

  function ReadLines(seen: seq<(string, seq<string>)>, lines: seq<string>): seq<(string, seq<string>)> {
    if lines == [] then seen else ReadLine(ReadLines(seen, lines[..|lines| - 1]), lines[|lines| - 1])
  }

  function Read(section: string): seq<(string, seq<string>)> {
    ReadLines([], SplitOn(section, "\n"))
  }

  function NonEmpty(lists: seq<(string, seq<string>)>): seq<(string, seq<string>)> {
    if lists == [] then [] else
      var last := lists[|lists| - 1];
      NonEmpty(lists[..|lists| - 1]) + if last.1 == [] then [] else [last]
  }

  lemma {:induction false} ReadAppend(seen: seq<(string, seq<string>)>, a: seq<string>, b: seq<string>)
    ensures ReadLines(seen, a + b) == ReadLines(ReadLines(seen, a), b)
    decreases |b|
  {
    if b == [] {
      assert a + b == a;
    } else {
      var n := |b| - 1;
      assert (a + b)[..|a| + n] == a + b[..n];
      ReadAppend(seen, a, b[..n]);
    }
  }

  lemma ReadOne(seen: seq<(string, seq<string>)>, line: string)
    ensures ReadLines(seen, [line]) == ReadLine(seen, line)
  {
    assert [line][..0] == [];
  }

  lemma {:induction false} ReadItems(seen: seq<(string, seq<string>)>, title: string, items: seq<string>)
    ensures ReadLines(seen + [(title, [])], ItemLines(items)) == seen + [(title, items)]
    decreases |items|
  {
    if items != [] {
      var n := |items| - 1;
      ReadItems(seen, title, items[..n]);
      assert ItemLines(items)[..n] == ItemLines(items[..n]);
      var line := "- " + items[n];
      assert line[0] == '-' && line[2..] == items[n];
      assert items[..n] + [items[n]] == items;
      assert (seen + [(title, items[..n])])[..|seen|] == seen;
    }
  }

  lemma ReadGroup(seen: seq<(string, seq<string>)>, title: string, items: seq<string>)
    requires items != []
    ensures ReadLines(seen, GroupLines(title, items)) == seen + [(title, items)]
  {
    var heading := "### " + title;
    var started, done := seen + [(title, [])], seen + [(title, items)];
    assert GroupLines(title, items) == ([heading] + [""]) + (ItemLines(items) + [""]);
    ReadAppend(seen, [heading] + [""], ItemLines(items) + [""]);
    ReadAppend(seen, [heading], [""]);
    ReadOne(seen, heading);
    assert heading[4..] == title;
    ReadOne(started, "");
    ReadAppend(started, ItemLines(items), [""]);
    ReadItems(seen, title, items);
    ReadOne(done, "");
  }

  lemma {:induction false} ReadBody(lists: seq<(string, seq<string>)>)
    ensures ReadLines([], BodyLines(lists)) == NonEmpty(lists)
    decreases |lists|
  {
    if lists != [] {
      var front, last := lists[..|lists| - 1], lists[|lists| - 1];
      ReadBody(front);
      ReadAppend([], BodyLines(front), GroupLines(last.0, last.1));
      if last.1 != [] {
        ReadGroup(NonEmpty(front), last.0, last.1);
      } else {
        assert BodyLines(front) + [] == BodyLines(front);
      }
    }
  }

  // ---- splitting at newlines ----

  lemma {:induction false} JoinUnlines(lines: seq<string>)
    ensures Join(lines + [""], "\n") == Unlines(lines)
    decreases |lines|
  {
    if lines == [] {
      assert lines + [""] == [""];
    } else {
      var rest := lines[1..];
      assert (lines + [""])[1..] == rest + [""];
      JoinUnlines(rest);
      assert lines == [lines[0]] + rest;
      UnlinesAppend([lines[0]], rest);
      OneLine(lines[0]);
    }
  }

  lemma {:induction false} LinesFree(lists: seq<(string, seq<string>)>)
    requires forall i :: 0 <= i < |lists| ==> AllFree(lists[i].1, '\n') && Free(lists[i].0, '\n')
    ensures AllFree(BodyLines(lists), '\n')
    decreases |lists|
  {
    if lists != [] {
      var last := lists[|lists| - 1];
      LinesFree(lists[..|lists| - 1]);
      forall i | 0 <= i < |last.1| ensures Free("- " + last.1[i], '\n') {
        assert Free(last.1[i], '\n');
      }
      assert AllFree(ItemLines(last.1), '\n');
      assert Free("### " + last.0, '\n');
    }
  }

  /** Reading text made of complete lines is reading the lines. */
  lemma ReadUnlines(lines: seq<string>)
    requires AllFree(lines, '\n')
    ensures Read(Unlines(lines)) == ReadLines([], lines)
  {
    JoinUnlines(lines);
    SplitInvertsJoin(lines + [""], '\n');
    ReadAppend([], lines, [""]);
    ReadOne(ReadLines([], lines), "");
  }

  lemma SectionAsLines(version: string, date: string, groups: Groups) returns (lines: seq<string>)
    requires Free(version, '\n') && Free(date, '\n') && groups.NewlineFree()
    ensures Section(version, date, groups) == Unlines(lines) && AllFree(lines, '\n')
    ensures ReadLines([], lines) == NonEmpty(groups.Lists())
    ensures lines != [] && lines[0] == "## [" + version + "] - " + date
  {
    var first := Header(version) + date;
    var head := [first, ""];
    var body := BodyTextLines(groups);
    lines := head + body;
    UnlinesAppend(head, body);
    PairOfLines(first);
    assert Free(first, '\n');
    assert first[0] == '#' && first[2] == ' ';
    ReadAppend([], head, body);
    ReadPlainPair([], first);
  }

  lemma {:induction false} BodyTextLines(groups: Groups) returns (lines: seq<string>)
    requires groups.NewlineFree()
    ensures BodyText(groups) == Unlines(lines) && AllFree(lines, '\n')
    ensures ReadLines([], lines) == NonEmpty(groups.Lists())
  {
    var lists := groups.Lists();
    EmptyBody(lists);
    NoneLeft(lists);
    if Body(lists) == "" {
      lines := [NO_CHANGES, ""];
      NoChangesRead();
    } else {
      lines := BodyLines(lists);
      TitlesFree(groups);
      LinesFree(lists);
      BodyAsLines(lists);
      ReadBody(lists);
    }
  }

  lemma NoChangesRead()
    ensures Unlines([NO_CHANGES, ""]) == NO_CHANGES + "\n\n" && AllFree([NO_CHANGES, ""], '\n')
    ensures ReadLines([], [NO_CHANGES, ""]) == []
  {
    PairOfLines(NO_CHANGES);
    NoChangesPlain();
    ReadPlainPair([], NO_CHANGES);
  }

  lemma NoChangesPlain()
    ensures Free(NO_CHANGES, '\n') && !StartsWith(NO_CHANGES, "### ") && !StartsWith(NO_CHANGES, "- ")
  {
    assert NO_CHANGES[0] == 'N';
  }

  lemma TitlesFree(groups: Groups)
    requires groups.NewlineFree()
    ensures forall i :: 0 <= i < |groups.Lists()| ==>
      AllFree(groups.Lists()[i].1, '\n') && Free(groups.Lists()[i].0, '\n')
  {
    var lists := groups.Lists();
    assert Free(lists[0].0, '\n') && Free(lists[1].0, '\n') && Free(lists[2].0, '\n') && Free(lists[3].0, '\n');
  }

  lemma PairOfLines(line: string)
    ensures Unlines([line, ""]) == line + "\n\n"
  {
    OneLine(line);
    OneLine("");
    UnlinesAppend([line], [""]);
    assert [line] + [""] == [line, ""];
    TwoNewlines(line);
  }

  lemma ReadPlainPair(seen: seq<(string, seq<string>)>, line: string)
    requires !StartsWith(line, "### ") && !StartsWith(line, "- ")
    ensures ReadLines(seen, [line, ""]) == seen
  {
    ReadAppend(seen, [line], [""]);
    ReadOne(seen, line);
    ReadOne(seen, "");
    assert [line] + [""] == [line, ""];
  }

  lemma {:induction false} NoneLeft(lists: seq<(string, seq<string>)>)
    ensures NonEmpty(lists) == [] <==> forall i :: 0 <= i < |lists| ==> lists[i].1 == []
    decreases |lists|
  {
    if lists != [] {
      NoneLeft(lists[..|lists| - 1]);
    }
  }

  /** Reading a section gives back its non-empty groups: titles, entries and both orders. */
  lemma SectionRoundTrip(version: string, date: string, groups: Groups)
    requires Free(version, '\n') && Free(date, '\n') && groups.NewlineFree()
    ensures Read(Section(version, date, groups)) == NonEmpty(groups.Lists())
  {
    var lines := SectionAsLines(version, date, groups);
    ReadUnlines(lines);
  }

  function Shown(title: string, items: seq<string>): seq<(string, seq<string>)> {
    if items == [] then [] else [(title, items)]
  }

  lemma NonEmptyFour(a: (string, seq<string>), b: (string, seq<string>), c: (string, seq<string>),
      d: (string, seq<string>))
    ensures NonEmpty([a, b, c, d]) == Shown(a.0, a.1) + Shown(b.0, b.1) + Shown(c.0, c.1) + Shown(d.0, d.1)
  {
    assert [a, b, c, d][..3] == [a, b, c] && [a, b, c][..2] == [a, b] && [a, b][..1] == [a] && [a][..0] == [];
    assert NonEmpty([a]) == Shown(a.0, a.1);
    assert NonEmpty([a, b]) == NonEmpty([a]) + Shown(b.0, b.1);
    assert NonEmpty([a, b, c]) == NonEmpty([a, b]) + Shown(c.0, c.1);
    assert NonEmpty([a, b, c, d]) == NonEmpty([a, b, c]) + Shown(d.0, d.1);
  }

  /** A release without entries says so. */
  lemma EmptySection(version: string, date: string)
    ensures Section(version, date, Groups([], [], [], []))
         == "## [" + version + "] - " + date + "\n\n" + "No notable changes.\n\n"
  {
    EmptyBody(Groups([], [], [], []).Lists());
    assert NO_CHANGES + "\n\n" == "No notable changes.\n\n";
  }

  /** The first line names version and date; the groups that follow stand under their titles, in this order. */
  lemma SectionShows(version: string, date: string, added: seq<string>, fixed: seq<string>, changed: seq<string>,
      other: seq<string>)
    requires Free(version, '\n') && Free(date, '\n')
    requires AllFree(added, '\n') && AllFree(fixed, '\n') && AllFree(changed, '\n') && AllFree(other, '\n')
    ensures var section := Section(version, date, Groups(added, fixed, changed, other));
      && SplitOn(section, "\n")[0] == "## [" + version + "] - " + date
      && Read(section)
      == Shown("Added", added) + Shown("Fixed", fixed) + Shown("Changed", changed) + Shown("Other", other)
  {
    var groups := Groups(added, fixed, changed, other);
    var lines := SectionAsLines(version, date, groups);
    JoinUnlines(lines);
    SplitInvertsJoin(lines + [""], '\n');
    SectionRoundTrip(version, date, groups);
    NonEmptyFour(("Added", added), ("Fixed", fixed), ("Changed", changed), ("Other", other));
  }
}

/** scripts/lib/hooks-command.js: merging the breadcrumb entry into .claude/settings.json. */
module Breadcrumb {
  import opened Wrappers
  import opened Text
  import opened ShellQuoting
  import opened Lists
  import PreCommitHook

  const MARKER := PreCommitHook.MARKER

  const PRINT_WORDS := ["hooks", "breadcrumb", "print"]
  const PRINT := "hooks breadcrumb print"

  /** One action of an entry's `hooks` array: its command, when that is a string. */
  datatype HookAction = HookAction(command: Option<string>, rest: string)

  /**
   * One entry of hooks.UserPromptSubmit. `NotAnObject` is any JSON scalar; `command` is the legacy flat
   * field when it is a string, `hooks` the array when it is one, `rest` everything else in the entry.
   */
  datatype Entry =
    | NotAnObject(text: string)
    | Entry(command: Option<string>, hooks: Option<seq<HookAction>>, rest: string)

  function FirstCommand(hooks: seq<HookAction>): Option<string> {
    if hooks == [] then None
    else if hooks[0].command.Some? then hooks[0].command
    else FirstCommand(hooks[1..])
  }

  function CommandOf(e: Entry): Option<string> {
    if e.NotAnObject? then None
    else if e.command.Some? then e.command
    else if e.hooks.Some? then FirstCommand(e.hooks.value)
    else None
  }

  predicate IsManaged(e: Entry) {
    var c := CommandOf(e);
    c.Some? && Contains(c.value, MARKER) && Contains(c.value, PRINT)
  }

  /** The first command of the array. */
  ghost predicate FirstIn(hooks: seq<HookAction>, command: string) {
    exists k :: 0 <= k < |hooks| && hooks[k].command == Some(command)
      && forall j :: 0 <= j < k ==> hooks[j].command == None
  }

  lemma {:induction false} FirstCommandExact(hooks: seq<HookAction>, command: string)
    ensures FirstCommand(hooks) == Some(command) <==> FirstIn(hooks, command)
    decreases |hooks|
  {
    if hooks != [] && hooks[0].command.None? {
      var rest := hooks[1..];
      FirstCommandExact(rest, command);
      if FirstIn(rest, command) {
        var k :| 0 <= k < |rest| && rest[k].command == Some(command)
          && forall j :: 0 <= j < k ==> rest[j].command == None;
        assert hooks[k + 1].command == Some(command);
        assert forall j :: 0 < j < k + 1 ==> hooks[j] == rest[j - 1];
      }
      if FirstIn(hooks, command) {
        var k :| 0 <= k < |hooks| && hooks[k].command == Some(command)
          && forall j :: 0 <= j < k ==> hooks[j].command == None;
        assert rest[k - 1].command == Some(command);
        assert forall j :: 0 <= j < k - 1 ==> rest[j] == hooks[j + 1];
      }
    }
  }

  /**
   * An entry is managed when the command it is known by holds the marker and asks for the breadcrumb: the legacy
   * one at its top, or else the first of its array.
   */
  lemma ManagedExact(e: Entry)
    ensures IsManaged(e) <==> e.Entry? && exists command ::
      && (e.command == Some(command) || (e.command == None && e.hooks.Some? && FirstIn(e.hooks.value, command)))
      && Contains(command, "# amber-managed-hook v1") && Contains(command, "hooks breadcrumb print")
  {
    if e.Entry? && e.hooks.Some? {
      forall command ensures FirstCommand(e.hooks.value) == Some(command) <==> FirstIn(e.hooks.value, command) {
        FirstCommandExact(e.hooks.value, command);
      }
    }
  }

  /** The shape Claude Code loads. */
  predicate IsWrapped(e: Entry) {
    e.Entry? && e.hooks.Some? && e.command.None?
  }

  // ---- the command that is written ----

  function CommandWords(entry: string, root: string): seq<string> {
    ["node", Dquoted(entry), "hooks", "breadcrumb", "print", "--target", Dquoted(root), "--format", "json"]
  }

  function Command(entry: string, root: string): string {
    Join(CommandWords(entry, root), " ") + " " + MARKER
  }

  function NewEntry(entry: string, root: string): Entry {
    Entry(None, Some([HookAction(Some(Command(entry, root)), "type: command")]), "matcher: \"\"")
  }

  lemma SafeMeans(word: string)
    requires SafeToken(word, PosixSafe)
    ensures Means(word, word)
  {
    RunToken(word);
  }

  lemma CommandWordsMean(entry: string, root: string)
    ensures var ws := CommandWords(entry, root);
      var vs := ["node", entry, "hooks", "breadcrumb", "print", "--target", root, "--format", "json"];
      forall i :: 0 <= i < |ws| ==> Means(ws[i], vs[i])
  {
    SafeMeans("node");
    DquoteRoundTrip(entry);
    SafeMeans("hooks");
    SafeMeans("breadcrumb");
    SafeMeans("print");
    SafeMeans("--target");
    DquoteRoundTrip(root);
    SafeMeans("--format");
    SafeMeans("json");
  }

  lemma {:induction false} CommentIgnored(s: string, st: State)
    requires st.mode.Comment? && forall i :: 0 <= i < |s| ==> s[i] != '\n'
    ensures Run(s, st) == st
    decreases |s|
  {
    if s != "" {
      CommentIgnored(s[1..], st);
    }
  }

  /**
   * For every installation path and repository root, sh runs node with exactly these arguments: the
   * paths come through unchanged and the marker is a comment.
   */
  lemma CommandRuns(entry: string, root: string)
    ensures ReadPosix(Command(entry, root))
         == Some(["node", entry, "hooks", "breadcrumb", "print", "--target", root, "--format", "json"])
  {
    var ws := CommandWords(entry, root);
    var vs := ["node", entry, "hooks", "breadcrumb", "print", "--target", root, "--format", "json"];
    CommandWordsMean(entry, root);
    MarkerIsComment();
    CommentedLine(ws, vs, MARKER);
  }

  /** At a word's start the text turns the rest of the line into a comment. */
  ghost predicate StartsComment(text: string) {
    forall words :: Run(text, State(Bare, None, words)) == State(Comment, None, words)
  }

  /** A line of words followed by a comment reads as the words. */
  lemma CommentedLine(texts: seq<string>, values: seq<string>, comment: string)
    requires |texts| == |values| > 0 && StartsComment(comment)
    requires forall i :: 0 <= i < |texts| ==> Means(texts[i], values[i])
    ensures ReadPosix(Join(texts, " ") + " " + comment) == Some(values)
  {
    var n := |values| - 1;
    LineState(texts, values);
    CommentAfter(Join(texts, " "), values[n], values[..n], comment);
    assert values[..n] + [values[n]] == values;
  }

  lemma LineState(texts: seq<string>, values: seq<string>)
    requires |texts| == |values| > 0
    requires forall i :: 0 <= i < |texts| ==> Means(texts[i], values[i])
    ensures Run(Join(texts, " "), State(Bare, None, []))
      == State(Bare, Some(values[|values| - 1]), values[..|values| - 1])
  {
    RunJoined(texts, values, []);
    assert [] + values[..|values| - 1] == values[..|values| - 1];
  }

  lemma CommentAfter(line: string, value: string, words: seq<string>, comment: string)
    requires Run(line, State(Bare, None, [])) == State(Bare, Some(value), words) && StartsComment(comment)
    ensures ReadPosix(line + " " + comment) == Some(words + [value])
  {
    var start, st := State(Bare, None, []), State(Bare, Some(value), words);
    RunAppend(line, " ", start);
    RunOne(' ', st);
    RunAppend(line + " ", comment, start);
    assert Run(comment, State(Bare, None, words + [value])) == State(Comment, None, words + [value]);
  }

  lemma MarkerIsComment()
    ensures StartsComment(MARKER)
  {
    forall words ensures Run(MARKER, State(Bare, None, words)) == State(Comment, None, words) {
      assert MARKER[0] == '#';
      CommentIgnored(MARKER[1..], State(Comment, None, words));
    }
  }

  /** The written entry is recognised, whatever the paths. */
  lemma NewEntryIsManaged(entry: string, root: string)
    ensures IsManaged(NewEntry(entry, root)) && IsWrapped(NewEntry(entry, root))
  {
    var line := Join(CommandWords(entry, root), " ");
    EndsWithIt(line + " ", MARKER);
    PrintInLine(entry, root);
  }

  lemma EndsWithIt(before: string, p: string)
    ensures Contains(before + p, p)
  {
    assert p[0..0 + |p|] == p;
    MatchInSuffix(before, p, p, 0);
    ContainsAt(before + p, p, |before|);
  }

  lemma {:induction false} JoinAppend(xs: seq<string>, ys: seq<string>)
    requires xs != [] && ys != []
    ensures Join(xs + ys, " ") == Join(xs, " ") + " " + Join(ys, " ")
    decreases |xs|
  {
    assert (xs + ys)[1..] == xs[1..] + ys;
    if |xs| == 1 {
      assert xs + ys == xs + ys && xs[1..] == [];
      assert (xs + ys)[1..] == ys;
    } else {
      JoinAppend(xs[1..], ys);
      Regroup(xs[0], Join(xs[1..], " "), Join(ys, " "));
    }
  }

  lemma Regroup(a: string, b: string, c: string)
    ensures a + " " + (b + " " + c) == (a + " " + b) + " " + c
  {
  }

  lemma PrintJoins()
    ensures Join(PRINT_WORDS, " ") == PRINT
  {
    assert PRINT_WORDS[1..] == ["breadcrumb", "print"] && PRINT_WORDS[1..][1..] == ["print"];
  }

  lemma PrintInLine(entry: string, root: string)
    ensures Contains(Command(entry, root), PRINT)
  {
    var first := ["node", Dquoted(entry)];
    var last := ["--target", Dquoted(root), "--format", "json"];
    assert CommandWords(entry, root) == first + (PRINT_WORDS + last);
    PrintJoins();
    WordsInLine(first, PRINT_WORDS, last, MARKER);
  }

  /** A line that holds some words in a row contains their joined text. */
  lemma WordsInLine(first: seq<string>, words: seq<string>, last: seq<string>, suffix: string)
    requires first != [] && words != [] && last != []
    ensures Contains(Join(first + (words + last), " ") + " " + suffix, Join(words, " "))
  {
    var a, b, c := Join(first, " "), Join(words, " "), Join(last, " ");
    JoinAppend(first, words + last);
    JoinAppend(words, last);
    ContainsBetween(a + " ", b, " " + c + " " + suffix);
    Reassociate(a, b, c, suffix);
  }

  lemma Reassociate(a: string, b: string, c: string, d: string)
    ensures a + " " + (b + " " + c) + " " + d == (a + " ") + (b + (" " + c + " " + d))
  {
  }

  lemma ContainsBetween(before: string, p: string, tail: string)
    ensures Contains(before + (p + tail), p)
  {
    assert (p + tail)[0..0 + |p|] == p;
    MatchInSuffix(before, p + tail, p, 0);
    ContainsAt(before + (p + tail), p, |before|);
  }

  // ---- settings.json ----

  datatype Prompts = Absent | NotAnArray(text: string) | Entries(entries: seq<Entry>)

  /** The `hooks` property: absent, something that is no object, or an object with its other keys. */
  datatype Hooks = NoHooks | NotHooks(text: string) | Hooks(prompts: Prompts, others: map<string, string>)

  datatype Settings = Settings(hooks: Hooks, others: map<string, string>)

  /** The file: absent, not a JSON object, or parsed. */
  datatype File = NoFile | Unreadable(text: string) | Parsed(settings: Settings)

  function FirstManaged(entries: seq<Entry>): int {
    FirstIndex(entries, IsManaged)
  }

  /** Installing into a list: nothing to do, a repair in place, or one new entry at the end. */
  function Merged(entries: seq<Entry>, added: Entry): seq<Entry> {
    var i := FirstManaged(entries);
    if i == -1 then entries + [added]
    else if IsWrapped(entries[i]) then entries
    else entries[i := added]
  }

  function Foreign(entries: seq<Entry>): seq<Entry> {
    Without(entries, IsManaged)
  }

  datatype InstallOutcome = Unmergeable | AlreadyInstalled | Repaired | Added
  datatype UninstallOutcome = NothingToRemove | CannotMerge | NotInstalled | Removed

  class SettingsFile {
    var file: File

    constructor (file: File)
      ensures this.file == file
    {
      this.file := file;
    }

    method Install(added: Entry) returns (outcome: InstallOutcome)
      modifies this
      ensures file == Installed(old(file), added)
      ensures outcome.Unmergeable? <==> !Mergeable(old(file))
      ensures outcome.AlreadyInstalled? || outcome.Unmergeable? ==> file == old(file)
    {
      if file.Unreadable? {
        return Unmergeable;
      }
      var settings := if file.NoFile? then Settings(NoHooks, map[]) else file.settings;
      if settings.hooks.NotHooks? {
        return Unmergeable;
      }
      var hooks := if settings.hooks.NoHooks? then Hooks(Absent, map[]) else settings.hooks;
      if hooks.prompts.NotAnArray? {
        return Unmergeable;
      }
      var entries := if hooks.prompts.Entries? then hooks.prompts.entries else [];
      var managedIndex := FirstManaged(entries);
      if managedIndex != -1 && IsWrapped(entries[managedIndex]) {
        return AlreadyInstalled;
      }
      if managedIndex != -1 {
        hooks := hooks.(prompts := Entries(entries[managedIndex := added]));
        outcome := Repaired;
      } else {
        hooks := hooks.(prompts := Entries(entries + [added]));
        outcome := Added;
      }
      file := Parsed(settings.(hooks := hooks));
    }

    method Uninstall() returns (outcome: UninstallOutcome)
      modifies this
      ensures file == Uninstalled(old(file))
      ensures !outcome.Removed? ==> file == old(file)
    {
      if file.NoFile? {
        return NothingToRemove;
      }
      if file.Unreadable? {
        return CannotMerge;
      }
      var settings := file.settings;
      if !settings.hooks.Hooks? || !settings.hooks.prompts.Entries? {
        return NotInstalled;
      }
      var entries := settings.hooks.prompts.entries;
      if FirstManaged(entries) == -1 {
        return NotInstalled;
      }
      var kept := Foreign(entries);
      var hooks := settings.hooks;
      if |kept| == 0 {
        hooks := hooks.(prompts := Absent);
        settings := settings.(hooks := if |hooks.others| == 0 then NoHooks else hooks);
      } else {
        settings := settings.(hooks := hooks.(prompts := Entries(kept)));
      }
      file := Parsed(settings);
      return Removed;
    }
  }

  predicate Mergeable(f: File) {
    match f
    case NoFile => true
    case Unreadable(_) => false
    case Parsed(s) => !s.hooks.NotHooks? && !(s.hooks.Hooks? && s.hooks.prompts.NotAnArray?)
  }

  /** The list of a mergeable file; empty where there is none. */
  function ListOf(f: File): seq<Entry> {
    if f.Parsed? && f.settings.hooks.Hooks? && f.settings.hooks.prompts.Entries?
    then f.settings.hooks.prompts.entries else []
  }

  /** A file with this list and everything else unchanged. */
  function WithList(f: File, entries: seq<Entry>): File
    requires Mergeable(f)
  {
    var settings := if f.NoFile? then Settings(NoHooks, map[]) else f.settings;
    var others := if settings.hooks.Hooks? then settings.hooks.others else map[];
    Parsed(settings.(hooks := Hooks(Entries(entries), others)))
  }

  function Installed(f: File, added: Entry): File {
    if !Mergeable(f) then f else
      var entries := ListOf(f);
      var merged := Merged(entries, added);
      if FirstManaged(entries) != -1 && IsWrapped(entries[FirstManaged(entries)]) then f else WithList(f, merged)
  }

  function Uninstalled(f: File): File {
    if !f.Parsed? || FirstManaged(ListOf(f)) == -1 then f else
      var kept := Foreign(ListOf(f));
      var hooks := f.settings.hooks;
      if kept != [] then WithList(f, kept)
      else Parsed(f.settings.(hooks := if |hooks.others| == 0 then NoHooks else hooks.(prompts := Absent)))
  }

  // ---- laws of the lists ----

  /** Installing leaves the foreign entries as they are, in content and in order. */
  lemma MergeKeepsForeign(entries: seq<Entry>, added: Entry)
    requires IsManaged(added)
    ensures Foreign(Merged(entries, added)) == Foreign(entries)
  {
    var i := FirstManaged(entries);
    FirstIndexFacts(entries, IsManaged);
    if i == -1 {
      WithoutAppend(entries, [added], IsManaged);
      WithoutOne(added, IsManaged);
    } else {
      WithoutReplaced(entries, i, added, IsManaged);
    }
  }

  /** A second install finds the first one and changes nothing. */
  lemma MergeIdempotent(entries: seq<Entry>, added: Entry, again: Entry)
    requires IsManaged(added) && IsWrapped(added)
    ensures Merged(Merged(entries, added), again) == Merged(entries, added)
    ensures var m := Merged(entries, added); var i := FirstManaged(m); i != -1 && IsWrapped(m[i])
  {
    FirstOfMerged(entries, added, IsManaged);
  }

  lemma FirstOfMerged(entries: seq<Entry>, added: Entry, managed: Entry -> bool)
    requires managed(added)
    ensures var i := FirstIndex(entries, managed);
      && FirstIndex(entries + [added], managed) == (if i == -1 then |entries| else i)
      && (i != -1 ==> FirstIndex(entries[i := added], managed) == i)
  {
    var i := FirstIndex(entries, managed);
    FirstIndexFacts(entries, managed);
    FirstIs(entries + [added], managed, if i == -1 then |entries| else i);
    if i != -1 {
      FirstIs(entries[i := added], managed, i);
    }
  }

  // ---- laws of the file ----

  /** Installing twice is installing once, whatever was there. */
  lemma InstallIdempotent(f: File, added: Entry, again: Entry)
    requires IsManaged(added) && IsWrapped(added)
    ensures Installed(Installed(f, added), again) == Installed(f, added)
  {
    if Mergeable(f) {
      MergeIdempotent(ListOf(f), added, again);
      assert Installed(f, added) == f || ListOf(Installed(f, added)) == Merged(ListOf(f), added);
    }
  }

  /** Neither operation touches a foreign entry; uninstalling leaves no managed one. */
  lemma ForeignKept(f: File, added: Entry)
    requires IsManaged(added) && Mergeable(f)
    ensures Foreign(ListOf(Installed(f, added))) == Foreign(ListOf(f))
    ensures ListOf(Uninstalled(f)) == Foreign(ListOf(f))
    ensures FirstManaged(ListOf(Uninstalled(f))) == -1
  {
    MergeKeepsForeign(ListOf(f), added);
    WithoutNone(ListOf(f), IsManaged);
  }

  /** What is lost when the only entry of a list is removed with its list, and then its empty parent. */
  predicate HasRoom(f: File) {
    f.Parsed? && match f.settings.hooks
      case NoHooks => true
      case NotHooks(_) => true
      case Hooks(prompts, others) =>
        if prompts.Absent? then others != map[] else prompts.Entries? ==> prompts.entries != []
  }

  /** Uninstalling right after installing gives the file back, exactly when nothing empty was there to lose. */
  lemma RoundTripExact(f: File, added: Entry)
    requires IsManaged(added) && IsWrapped(added) && FirstManaged(ListOf(f)) == -1
    ensures Uninstalled(Installed(f, added)) == f <==> !Mergeable(f) || HasRoom(f)
  {
    if Mergeable(f) {
      var entries := ListOf(f);
      var g := Installed(f, added);
      assert g == WithList(f, entries + [added]) && ListOf(g) == entries + [added];
      MergeIdempotent(entries, added, added);
      MergeKeepsForeign(entries, added);
      WithoutNone(entries, IsManaged);
      assert Foreign(ListOf(g)) == entries;
      assert FirstManaged(ListOf(g)) != -1;
    } else {
      assert Installed(f, added) == f;
    }
  }

  // ---- the actions a user put into an entry ----

  predicate IsManagedAction(h: HookAction) {
    h.command.Some? && Contains(h.command.value, MARKER) && Contains(h.command.value, PRINT)
  }

  /** The actions of one entry that are not the breadcrumb's. */
  function UserActionsOf(e: Entry): seq<HookAction> {
    if e.Entry? && e.hooks.Some? then Without(e.hooks.value, IsManagedAction) else []
  }

  predicate AsksForBreadcrumb(command: Option<string>) {
    && command.Some?
    && Contains(command.value, "# amber-managed-hook v1") && Contains(command.value, "hooks breadcrumb print")
  }

  /** The user wrote one of the actions of the entry. */
  ghost predicate HoldsUserAction(e: Entry) {
    e.Entry? && e.hooks.Some? && exists h :: h in e.hooks.value && !AsksForBreadcrumb(h.command)
  }

  lemma UserActionsExact(e: Entry)
    ensures UserActionsOf(e) == [] <==> !HoldsUserAction(e)
  {
    if e.Entry? && e.hooks.Some? {
      WithoutMembers(e.hooks.value, IsManagedAction);
      var kept := UserActionsOf(e);
      assert kept != [] ==> kept[0] in kept;
    }
  }

  function UserActions(entries: seq<Entry>): seq<HookAction> {
    Flatten(entries, UserActionsOf)
  }

  lemma NewEntryIsBare(entry: string, root: string)
    ensures UserActionsOf(NewEntry(entry, root)) == []
  {
    NewEntryIsManaged(entry, root);
    WithoutOne(HookAction(Some(Command(entry, root)), "type: command"), IsManagedAction);
  }

  /** Uninstalling keeps every action of the user exactly when no managed entry holds one. */
  lemma UninstallKeepsActions(f: File)
    requires Mergeable(f)
    ensures UserActions(ListOf(Uninstalled(f))) == UserActions(ListOf(f))
       <==> forall e :: e in ListOf(f) && IsManaged(e) ==> !HoldsUserAction(e)
  {
    forall e ensures UserActionsOf(e) == [] <==> !HoldsUserAction(e) {
      UserActionsExact(e);
    }
    WithoutNone(ListOf(f), IsManaged);
    assert ListOf(Uninstalled(f)) == Foreign(ListOf(f));
    FlattenWithout(ListOf(f), IsManaged, UserActionsOf);
  }

  lemma AddedActions(entries: seq<Entry>, added: Entry)
    requires UserActionsOf(added) == []
    ensures UserActions(entries + [added]) == UserActions(entries)
  {
    FlattenAppend(entries, [added], UserActionsOf);
    FlattenOne(added, UserActionsOf);
    assert UserActions(entries) + [] == UserActions(entries);
  }

  /** Merging in an entry without user actions loses those of the entry it repairs, if any, and no others. */
  lemma MergeKeepsActions(entries: seq<Entry>, added: Entry)
    requires UserActionsOf(added) == []
    ensures UserActions(Merged(entries, added)) == UserActions(entries)
       <==> var i := FirstManaged(entries); i == -1 || IsWrapped(entries[i]) || UserActionsOf(entries[i]) == []
  {
    var i := FirstManaged(entries);
    if i == -1 {
      AddedActions(entries, added);
    } else {
      FlattenReplaced(entries, i, added, UserActionsOf);
    }
  }

  lemma InstalledList(f: File, added: Entry)
    requires Mergeable(f)
    ensures ListOf(Installed(f, added)) == Merged(ListOf(f), added)
  {
  }

  /** Installing keeps every action of the user exactly when the entry it repairs, if any, holds none. */
  lemma InstallKeepsActions(f: File, entry: string, root: string)
    requires Mergeable(f)
    ensures UserActions(ListOf(Installed(f, NewEntry(entry, root)))) == UserActions(ListOf(f))
       <==> var i := FirstManaged(ListOf(f)); i == -1 || IsWrapped(ListOf(f)[i]) || !HoldsUserAction(ListOf(f)[i])
  {
    forall e ensures UserActionsOf(e) == [] <==> !HoldsUserAction(e) {
      UserActionsExact(e);
    }
    var added := NewEntry(entry, root);
    NewEntryIsBare(entry, root);
    InstalledList(f, added);
    MergeKeepsActions(ListOf(f), added);
  }
}

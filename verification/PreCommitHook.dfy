/** scripts/lib/hooks-command.js: installing and removing the pre-commit guard. */
module PreCommitHook {
  import opened Wrappers
  import opened Text
  import opened ShellQuoting

  const MARKER := "# amber-managed-hook v1"

  const NOTE := "  (opt-in governance guard \U{2014} " + "remove with: amber hooks uninstall)"

  const SKIPPED := "[ \"$AMBER_SKIP_HOOKS\" = \"1\" ]"
  const NODE_FOUND := "command -v node >/dev/null 2>&1"
  const NO_NODE := "echo \"amber hooks: " + "node not found, skipping\""
  const NO_AMBER := "echo \"amber hooks: " + "amber not found, skipping\""

  function AmberFound(entry: string): string {
    "[ -f " + Dquoted(entry) + " ]"
  }

  function CheckWords(entry: string, root: string, warnOnly: bool): seq<string> {
    ["node", Dquoted(entry), "hooks", "check", "--target", Dquoted(root)] + if warnOnly then ["--warn-only"] else []
  }

  function CheckCommand(entry: string, root: string, warnOnly: bool): string {
    Join(CheckWords(entry, root, warnOnly), " ")
  }

  function GuardLines(entry: string, root: string, warnOnly: bool): (lines: seq<string>)
    ensures lines != []
  {
    [
      SKIPPED + " && exit 0",
      NODE_FOUND + " || { " + NO_NODE + "; exit 0; }",
      AmberFound(entry) + " || { " + NO_AMBER + "; exit 0; }",
      CheckCommand(entry, root, warnOnly) + " || exit 1",
      "exit 0",
      ""
    ]
  }

  /** The guard script, for the amber entry point and a repository root given with forward slashes. */
  function Shim(entry: string, root: string, warnOnly: bool): string {
    Join(["#!/bin/sh", MARKER + NOTE] + GuardLines(entry, root, warnOnly), "\n")
  }

  lemma MarkerOnSecondLine(first: string, tail: string, lines: seq<string>)
    requires lines != []
    ensures Contains(Join([first, MARKER + tail] + lines, "\n"), MARKER)
  {
    var all := [first, MARKER + tail] + lines;
    var rest := Join(all[1..], "\n");
    assert all[1..][0] == MARKER + tail;
    assert Join(all, "\n") == (first + "\n") + rest;
    assert MARKER <= rest;
    assert rest[0..0 + |MARKER|] == MARKER;
    MatchInSuffix(first + "\n", rest, MARKER, 0);
    ContainsAt(Join(all, "\n"), MARKER, |first| + 1);
  }

  /** Whatever the paths, the installed guard is recognised as managed. */
  lemma ShimIsManaged(entry: string, root: string, warnOnly: bool)
    ensures Contains(Shim(entry, root, warnOnly), MARKER)
  {
    MarkerOnSecondLine("#!/bin/sh", NOTE, GuardLines(entry, root, warnOnly));
  }

  // ---- the two files ----

  datatype Disk = Disk(hook: Option<string>, backup: Option<string>)

  predicate Managed(hook: Option<string>) {
    hook.Some? && Contains(hook.value, MARKER)
  }

  datatype Event =
    | Install(shim: string, force: bool)
    | Uninstall
    | Overwrite(content: string)
    | Delete

  function Apply(d: Disk, e: Event): Disk {
    match e
    case Install(shim, force) =>
      Disk(Some(shim), if d.hook.Some? && !Managed(d.hook) && !force then d.hook else d.backup)
    case Uninstall =>
      if !Managed(d.hook) then d else Disk(d.backup, None)
    case Overwrite(content) => d.(hook := Some(content))
    case Delete => d.(hook := None)
  }

  datatype InstallResult = NotARepository | Installed(backedUp: bool)
  datatype UninstallResult = NoHook | NotManaged | Restored | Removed

  class HooksDirectory {
    const isRepository: bool
    /** The guard this amber installs here: blocking, and warn-only. */
    const blocking: string
    const warning: string
    var hook: Option<string>
    var backup: Option<string>

    function Files(): Disk
      reads this
    {
      Disk(hook, backup)
    }

    predicate Valid() {
      Contains(blocking, MARKER) && Contains(warning, MARKER)
    }

    constructor (isRepository: bool, entry: string, root: string, hook: Option<string>, backup: Option<string>)
      ensures Valid() && Files() == Disk(hook, backup) && this.isRepository == isRepository
      ensures blocking == Shim(entry, root, false) && warning == Shim(entry, root, true)
    {
      this.isRepository := isRepository;
      ShimIsManaged(entry, root, false);
      ShimIsManaged(entry, root, true);
      blocking := Shim(entry, root, false);
      warning := Shim(entry, root, true);
      this.hook := hook;
      this.backup := backup;
    }

    method InstallHook(warnOnly: bool, force: bool) returns (r: InstallResult)
      requires Valid()
      modifies this
      ensures !isRepository ==> r == NotARepository && Files() == old(Files())
      ensures isRepository ==>
        Files() == Apply(old(Files()), Install(if warnOnly then warning else blocking, force)) && Managed(hook)
        && r == Installed(old(hook.Some?) && !old(Managed(hook)) && !force)
    {
      if !isRepository {
        return NotARepository;
      }
      r := Installed(false);
      if hook.Some? {
        var existing := hook.value;
        if !Contains(existing, MARKER) && !force {
          backup := Some(existing);
          r := Installed(true);
        }
      }
      hook := Some(if warnOnly then warning else blocking);
    }

    method UninstallHook() returns (r: UninstallResult)
      modifies this
      ensures Files() == Apply(old(Files()), Uninstall)
      ensures r == if old(hook.None?) then NoHook else if !old(Managed(hook)) then NotManaged
                   else if old(backup.Some?) then Restored else Removed
    {
      if hook.None? {
        return NoHook;
      }
      if !Contains(hook.value, MARKER) {
        return NotManaged;
      }
      if backup.Some? {
        hook := Some(backup.value);
        backup := None;
        return Restored;
      }
      hook := None;
      return Removed;
    }
  }

  // ---- runs ----

  /** The files together with what the guard in place took the place of. */
  datatype World = World(disk: Disk, displaced: Option<string>)

  /** Installed text is a guard, and users write hooks of their own. */
  predicate Proper(e: Event) {
    match e
    case Install(shim, _) => Contains(shim, MARKER)
    case Overwrite(content) => !Contains(content, MARKER)
    case _ => true
  }

  function Next(w: World, e: Event): World {
    World(Apply(w.disk, e), if e.Install? && !Managed(w.disk.hook) then w.disk.hook else w.displaced)
  }

  /** An installed guard has exactly the hook it displaced, or the lack of one, as its backup. */
  predicate Restorable(w: World) {
    Managed(w.disk.hook) ==> w.disk.backup == w.displaced
  }

  /** A backup never holds a guard. */
  predicate OwnBackup(w: World) {
    w.disk.backup.Some? ==> !Managed(w.disk.backup)
  }

  /**
   * Installing where nothing is displaced while an old backup lies around, or by force over a hook
   * that is not the one backed up.
   */
  predicate LosesTrack(w: World, e: Event) {
    e.Install? && !Managed(w.disk.hook) &&
    if w.disk.hook.None? then w.disk.backup.Some? else e.force && w.disk.backup != w.disk.hook
  }

  function After(w: World, events: seq<Event>): World {
    if events == [] then w else Next(After(w, events[..|events| - 1]), events[|events| - 1])
  }

  lemma StepExact(w: World, e: Event)
    requires Proper(e) && OwnBackup(w)
    ensures OwnBackup(Next(w, e))
    ensures Restorable(w) ==> (Restorable(Next(w, e)) <==> !LosesTrack(w, e))
    ensures LosesTrack(w, e) ==> !Restorable(Next(w, e))
  {
  }

  lemma {:induction false} BackupStaysOwn(start: World, events: seq<Event>)
    requires OwnBackup(start) && forall e :: e in events ==> Proper(e)
    ensures OwnBackup(After(start, events))
    decreases |events|
  {
    if events != [] {
      var n := |events| - 1;
      BackupStaysOwn(start, events[..n]);
      assert events[n] in events;
      StepExact(After(start, events[..n]), events[n]);
    }
  }

  ghost predicate AlwaysRestorable(start: World, events: seq<Event>) {
    forall k :: 0 <= k <= |events| ==> Restorable(After(start, events[..k]))
  }

  ghost predicate NeverLosesTrack(start: World, events: seq<Event>) {
    forall k :: 0 <= k < |events| ==> LosesTrack(After(start, events[..k]), events[k]) == false
  }

  lemma RunStep(start: World, events: seq<Event>)
    requires events != []
    ensures var before, last := events[..|events| - 1], events[|events| - 1];
      && (AlwaysRestorable(start, events) <==> AlwaysRestorable(start, before) && Restorable(After(start, events)))
      && (NeverLosesTrack(start, events) <==> NeverLosesTrack(start, before) && !LosesTrack(After(start, before), last))
  {
    var n := |events| - 1;
    var before := events[..n];
    assert forall k :: 0 <= k <= n ==> before[..k] == events[..k];
    assert events[..n + 1] == events;
  }

  /** The guard can be undone after every step of a run exactly when no step is an install that loses track. */
  lemma {:induction false} RunExact(start: World, events: seq<Event>)
    requires start.disk.backup.None? && start.displaced.None?
    requires forall e :: e in events ==> Proper(e)
    ensures AlwaysRestorable(start, events) <==> NeverLosesTrack(start, events)
    decreases |events|
  {
    if events == [] {
      assert events[..0] == [];
    } else {
      var n := |events| - 1;
      var before := events[..n];
      RunStep(start, events);
      RunExact(start, before);
      BackupStaysOwn(start, before);
      StepExact(After(start, before), events[n]);
      if AlwaysRestorable(start, before) {
        assert before[..n] == before;
        assert Restorable(After(start, before));
      }
    }
  }

  /** Runs of plain installs, uninstalls and overwrites never lose track. */
  predicate Ordinary(e: Event) {
    Proper(e) && !e.Delete? && (e.Install? ==> !e.force)
  }

  lemma {:induction false} OrdinaryRuns(start: World, events: seq<Event>)
    requires start.disk.backup.None? && start.displaced.None?
    requires forall e :: e in events ==> Ordinary(e)
    ensures var w := After(start, events);
      Restorable(w) && OwnBackup(w) && (w.disk.hook.None? ==> w.disk.backup.None?)
    decreases |events|
  {
    if events != [] {
      var n := |events| - 1;
      OrdinaryRuns(start, events[..n]);
      assert events[n] in events;
      StepExact(After(start, events[..n]), events[n]);
    }
  }

  /** Uninstalling a guard after an ordinary run puts back the displaced bytes and leaves no backup. */
  lemma UninstallRestores(start: World, events: seq<Event>)
    requires start.disk.backup.None? && start.displaced.None?
    requires forall e :: e in events ==> Ordinary(e)
    requires Managed(After(start, events).disk.hook)
    ensures Apply(After(start, events).disk, Uninstall) == Disk(After(start, events).displaced, None)
  {
    OrdinaryRuns(start, events);
  }

  function Installs(shims: seq<string>): seq<Event> {
    seq(|shims|, i requires 0 <= i < |shims| => Install(shims[i], false))
  }

  /** Any number of repeated installs over a user's hook still backs up that hook, not the guard. */
  lemma {:induction false} RepeatedInstalls(content: string, backup: Option<string>, shims: seq<string>)
    requires !Contains(content, MARKER) && shims != []
    requires forall s :: s in shims ==> Contains(s, MARKER)
    ensures var w := After(World(Disk(Some(content), backup), None), Installs(shims));
      w.disk == Disk(Some(shims[|shims| - 1]), Some(content)) && w.displaced == Some(content)
    decreases |shims|
  {
    var n := |shims| - 1;
    var start := World(Disk(Some(content), backup), None);
    assert Installs(shims)[..n] == Installs(shims[..n]);
    if n > 0 {
      RepeatedInstalls(content, backup, shims[..n]);
      assert shims[n - 1] in shims;
    } else {
      assert After(start, Installs(shims)[..0]) == start;
    }
  }

  /** A deleted hook and a forgotten backup: the next uninstall brings back a hook that was not there. */
  lemma StaleBackupReturns(content: string, shim: string)
    requires !Contains(content, MARKER) && Contains(shim, MARKER)
    ensures var start := World(Disk(Some(content), None), None);
      var w := After(start, [Install(shim, false), Delete, Install(shim, false)]);
      w.displaced == None && Apply(w.disk, Uninstall).hook == Some(content)
  {
    var start := World(Disk(Some(content), None), None);
    var all := [Install(shim, false), Delete, Install(shim, false)];
    assert all[..2][..1] == all[..1] && all[..1][..0] == [];
    assert After(start, all[..1]) == World(Disk(Some(shim), Some(content)), Some(content));
    assert After(start, all[..2]) == World(Disk(None, Some(content)), Some(content));
  }
}

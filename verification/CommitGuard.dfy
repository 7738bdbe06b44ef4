/** scripts/lib/hooks-command.js: the pre-commit check, and what the guard script makes of its answer. */
module CommitGuard {
  import opened Wrappers
  import opened Text
  import opened Lists
  import FeatureList
  import opened ShellQuoting
  import opened PreCommitHook

  // ---- the check ----

  /** The feature claims completion without evidence. */
  predicate Unproven(f: FeatureList.Feature) {
    FeatureList.IsComplete(f.status) && f.evidence == []
  }

  function Proven(): FeatureList.Feature -> bool {
    f => !Unproven(f)
  }

  /** What the check reports: how many features are unproven, and each of them. */
  datatype Finding = Failed(count: nat) | NoEvidence(feature: FeatureList.Feature)

  function NoEvidences(fs: seq<FeatureList.Feature>): seq<Finding> {
    seq(|fs|, i requires 0 <= i < |fs| => NoEvidence(fs[i]))
  }

  /** The loop over the features; the findings are in the order of the list. */
  method CheckFeatureEvidence(features: seq<FeatureList.Feature>) returns (unproven: seq<FeatureList.Feature>)
    ensures unproven == Without(features, Proven())
    ensures forall f :: f in unproven <==>
      f in features && f.status in ["passing", "accepted", "done"] && |f.evidence| == 0
    ensures |unproven| == 0 <==> FeatureList.Clean(features)
  {
    var proven := Proven();
    unproven := [];
    for i := 0 to |features|
      invariant unproven == Without(features[..i], proven)
      invariant forall f :: f in unproven <==> f in features[..i] && Unproven(f)
    {
      var f := features[i];
      assert features[..i + 1] == features[..i] + [f];
      WithoutAppend(features[..i], [f], proven);
      WithoutOne(f, proven);
      var hasEvidence := |f.evidence| > 0;
      if FeatureList.IsComplete(f.status) && !hasEvidence {
        unproven := unproven + [f];
      }
    }
    assert features[..|features|] == features;
    assert unproven != [] ==> unproven[0] in unproven;
  }

  /** An unproven feature is an error, or a warning when the check only warns. */
  method CheckGovernance(features: seq<FeatureList.Feature>, warnOnly: bool)
    returns (errors: seq<Finding>, warnings: seq<Finding>)
    ensures errors == [] <==> warnOnly || FeatureList.Clean(features)
    ensures warnings == [] <==> !warnOnly || FeatureList.Clean(features)
    ensures var unproven, found := Without(features, Proven()), errors + warnings;
      if unproven == [] then found == []
      else
        && |found| == |unproven| + 1 && found[0] == Failed(|unproven|)
        && forall i :: 0 <= i < |unproven| ==> found[i + 1] == NoEvidence(unproven[i])
  {
    errors, warnings := [], [];
    var unproven := CheckFeatureEvidence(features);
    if |unproven| > 0 {
      var bucket := [Failed(|unproven|)] + NoEvidences(unproven);
      if warnOnly {
        warnings := bucket;
      } else {
        errors := bucket;
      }
    }
  }

  // ---- the words of the check ----

  lemma PlainWord(word: string)
    requires SafeToken(word, PosixSafe)
    ensures Means(word, word)
  {
    RunToken(word);
  }

  lemma CheckWordsMean(entry: string, root: string, warnOnly: bool)
    ensures var texts := CheckWords(entry, root, warnOnly);
      var values := ["node", entry, "hooks", "check", "--target", root] + if warnOnly then ["--warn-only"] else [];
      |texts| == |values| && forall i :: 0 <= i < |texts| ==> Means(texts[i], values[i])
  {
    PlainWord("node");
    DquoteRoundTrip(entry);
    PlainWord("hooks");
    PlainWord("check");
    PlainWord("--target");
    DquoteRoundTrip(root);
    PlainWord("--warn-only");
  }

  /** sh asks node for the check of exactly this repository, told to warn only if the guard is installed so. */
  lemma CheckRuns(entry: string, root: string, warnOnly: bool)
    ensures ReadPosix(CheckCommand(entry, root, warnOnly))
         == Some(["node", entry, "hooks", "check", "--target", root] + if warnOnly then ["--warn-only"] else [])
  {
    var texts := CheckWords(entry, root, warnOnly);
    var values := ["node", entry, "hooks", "check", "--target", root] + if warnOnly then ["--warn-only"] else [];
    CheckWordsMean(entry, root, warnOnly);
    RunJoined(texts, values, []);
    assert [] + values[..|values| - 1] + [values[|values| - 1]] == values;
  }

  // ---- the script, run line by line ----

  /** `test && exit code`, `test || exit code`, or `exit code`. */
  datatype Step = ExitIf(test: string, code: nat) | ExitUnless(test: string, code: nat) | Exit(code: nat) | Blank

  predicate EndsIn(line: string, end: string) {
    |line| >= |end| && line[|line| - |end|..] == end
  }

  function Front(line: string, end: string): string
    requires EndsIn(line, end)
  {
    line[..|line| - |end|]
  }

  /** A line of the script: comments and the empty line do nothing. */
  function ReadStep(line: string): Step {
    if line == "" || line[0] == '#' then Blank
    else if line == "exit 0" then Exit(0)
    else if EndsIn(line, " && exit 0") then ExitIf(Front(line, " && exit 0"), 0)
    else if EndsIn(line, " || exit 1") then ExitUnless(Front(line, " || exit 1"), 1)
    else if EndsIn(line, "; exit 0; }") && LastOf(line, '{') >= 4 then ExitUnless(line[..LastOf(line, '{') - 4], 0)
    else Blank
  }

  /** The exit code of the lines, when `succeeds` tells which commands do. */
  function ExitCode(lines: seq<string>, succeeds: string -> bool): nat {
    if lines == [] then 0 else
      match ReadStep(lines[0])
      case ExitIf(test, code) => if succeeds(test) then code else ExitCode(lines[1..], succeeds)
      case ExitUnless(test, code) => if succeeds(test) then ExitCode(lines[1..], succeeds) else code
      case Exit(code) => code
      case Blank => ExitCode(lines[1..], succeeds)
  }

  function RunScript(script: string, succeeds: string -> bool): nat {
    ExitCode(SplitOn(script, "\n"), succeeds)
  }

  lemma StepIf(test: string)
    requires test != "" && test[0] != '#'
    ensures ReadStep(test + " && exit 0") == ExitIf(test, 0)
  {
    var line := test + " && exit 0";
    assert line[|line| - 10..] == " && exit 0" && line[..|line| - 10] == test;
  }

  lemma StepUnless(test: string)
    requires test != "" && test[0] != '#'
    ensures ReadStep(test + " || exit 1") == ExitUnless(test, 1)
  {
    var line := test + " || exit 1";
    assert line[|line| - 10..] == " || exit 1" && line[..|line| - 10] == test;
    assert line[|line| - 1] == '1';
  }

  lemma StepNote(test: string, note: string)
    requires test != "" && test[0] != '#' && Free(note, '{')
    ensures ReadStep(test + " || { " + note + "; exit 0; }") == ExitUnless(test, 0)
  {
    var line := test + " || { " + note + "; exit 0; }";
    var at := |test| + 4;
    assert line[|line| - 11..] == "; exit 0; }";
    assert line[at] == '{' && line[|line| - 1] == '}';
    assert forall j :: at + 2 <= j < at + 2 + |note| ==> line[j] == note[j - at - 2];
    assert LastOf(line, '{') == at;
    assert line[..at - 4] == test;
  }

  lemma {:induction false} DquoteFree(s: string, c: char)
    requires Free(s, c) && c != '\\' && c != '"'
    ensures Free(Dquoted(s), c)
    decreases |s|
  {
    ShDquoteFree(s, c);
  }

  lemma {:induction false} ShDquoteFree(s: string, c: char)
    requires Free(s, c) && c != '\\'
    ensures Free(ShDquote(s), c)
    decreases |s|
  {
    if s != "" {
      ShDquoteFree(s[1..], c);
    }
  }

  predicate OneLine(line: string) {
    Free(line, '\n')
  }

  lemma PartsFree(a: string, b: string, c: char)
    requires Free(a, c) && Free(b, c)
    ensures Free(a + b, c)
  {
  }

  lemma CommandsFree()
    ensures OneLine(SKIPPED) && OneLine(NODE_FOUND)
  {
  }

  lemma HeadFree()
    ensures OneLine(MARKER) && OneLine(NOTE)
  {
    PartsFree("  (opt-in governance guard \U{2014} ", "remove with: amber hooks uninstall)", '\n');
  }

  lemma NotesFree(c: char)
    requires c == '\n' || c == '{'
    ensures Free(NO_NODE, c) && Free(NO_AMBER, c)
  {
    PartsFree("echo \"amber hooks: ", "node not found, skipping\"", c);
    PartsFree("echo \"amber hooks: ", "amber not found, skipping\"", c);
  }

  lemma {:induction false} JoinedFree(words: seq<string>)
    requires AllFree(words, '\n')
    ensures OneLine(Join(words, " "))
    decreases |words|
  {
    if |words| > 1 {
      JoinedFree(words[1..]);
    }
  }

  lemma CheckFree(entry: string, root: string, warnOnly: bool)
    requires OneLine(Dquoted(entry)) && OneLine(Dquoted(root))
    ensures OneLine(CheckCommand(entry, root, warnOnly))
  {
    var words := CheckWords(entry, root, warnOnly);
    assert OneLine(words[0]) && OneLine(words[2]) && OneLine(words[3]) && OneLine(words[4]);
    assert warnOnly ==> OneLine(words[6]);
    JoinedFree(words);
  }

  lemma GuardFree(entry: string, root: string, warnOnly: bool)
    requires OneLine(entry) && OneLine(root)
    ensures AllFree(GuardLines(entry, root, warnOnly), '\n')
  {
    var lines := GuardLines(entry, root, warnOnly);
    CommandsFree();
    NotesFree('\n');
    DquoteFree(entry, '\n');
    DquoteFree(root, '\n');
    assert OneLine(lines[0]) && OneLine(lines[1]) && OneLine(lines[2]);
    CheckFree(entry, root, warnOnly);
    assert OneLine(lines[3]) && OneLine(lines[4]) && OneLine(lines[5]);
  }

  /** The script as the shell reads it: its lines, for paths on one line. */
  lemma ScriptLines(entry: string, root: string, warnOnly: bool)
    requires OneLine(entry) && OneLine(root)
    ensures SplitOn(Shim(entry, root, warnOnly), "\n")
         == ["#!/bin/sh", MARKER + NOTE] + GuardLines(entry, root, warnOnly)
  {
    var guard := GuardLines(entry, root, warnOnly);
    var head := ["#!/bin/sh", MARKER + NOTE];
    GuardFree(entry, root, warnOnly);
    HeadFree();
    assert OneLine(head[0]) && OneLine(head[1]);
    SplitInvertsJoin(head + guard, '\n');
  }

  lemma {:induction false} SkipBlank(lines: seq<string>, rest: seq<string>, succeeds: string -> bool)
    requires forall i :: 0 <= i < |lines| ==> ReadStep(lines[i]).Blank?
    ensures ExitCode(lines + rest, succeeds) == ExitCode(rest, succeeds)
    decreases |lines|
  {
    if lines == [] {
      assert lines + rest == rest;
    } else {
      assert (lines + rest)[1..] == lines[1..] + rest;
      SkipBlank(lines[1..], rest, succeeds);
    }
  }

  lemma FourSteps(lines: seq<string>, a: string, b: string, c: string, d: string, succeeds: string -> bool)
    requires |lines| >= 5 && ReadStep(lines[4]) == Exit(0)
    requires ReadStep(lines[0]) == ExitIf(a, 0) && ReadStep(lines[1]) == ExitUnless(b, 0)
    requires ReadStep(lines[2]) == ExitUnless(c, 0) && ReadStep(lines[3]) == ExitUnless(d, 1)
    ensures ExitCode(lines, succeeds)
         == if !succeeds(a) && succeeds(b) && succeeds(c) && !succeeds(d) then 1 else 0
  {
    var l1 := lines[1..];
    var l2 := l1[1..];
    var l3 := l2[1..];
    var l4 := l3[1..];
    assert l1[0] == lines[1] && l2[0] == lines[2] && l3[0] == lines[3] && l4[0] == lines[4];
    assert ExitCode(l4, succeeds) == 0;
    assert ExitCode(l3, succeeds) == if succeeds(d) then 0 else 1;
    assert ExitCode(l2, succeeds) == if succeeds(c) then ExitCode(l3, succeeds) else 0;
  }

  /** What the lines are read as, whatever the commands in them. */
  lemma GuardSteps(lines: seq<string>, skip: string, node: string, noNode: string, amber: string, noAmber: string,
      check: string, succeeds: string -> bool)
    requires |lines| == 6 && lines[0] == skip + " && exit 0" && lines[1] == node + " || { " + noNode + "; exit 0; }"
    requires lines[2] == amber + " || { " + noAmber + "; exit 0; }" && lines[3] == check + " || exit 1"
    requires lines[4] == "exit 0" && Free(noNode, '{') && Free(noAmber, '{')
    requires skip != "" && node != "" && amber != "" && check != ""
    requires skip[0] != '#' && node[0] != '#' && amber[0] != '#' && check[0] != '#'
    ensures ExitCode(lines, succeeds)
         == if !succeeds(skip) && succeeds(node) && succeeds(amber) && !succeeds(check) then 1 else 0
  {
    StepIf(skip);
    StepNote(node, noNode);
    StepNote(amber, noAmber);
    StepUnless(check);
    FourSteps(lines, skip, node, amber, check, succeeds);
  }

  /** The guard ends a commit, with 1, exactly when it is not skipped, finds node and amber, and the check fails. */
  lemma GuardExact(entry: string, root: string, warnOnly: bool, succeeds: string -> bool)
    requires OneLine(entry) && OneLine(root)
    ensures RunScript(Shim(entry, root, warnOnly), succeeds)
         == if !succeeds("[ \"$AMBER_SKIP_HOOKS\" = \"1\" ]") && succeeds("command -v node >/dev/null 2>&1")
               && succeeds("[ -f " + Dquoted(entry) + " ]") && !succeeds(CheckCommand(entry, root, warnOnly))
            then 1 else 0
  {
    var guard := GuardLines(entry, root, warnOnly);
    var head := ["#!/bin/sh", MARKER + NOTE];
    ScriptLines(entry, root, warnOnly);
    assert head[0][0] == '#' && head[1][0] == '#';
    SkipBlank(head, guard, succeeds);
    NotesFree('{');
    GuardSteps(guard, SKIPPED, NODE_FOUND, NO_NODE, AmberFound(entry), NO_AMBER, CheckCommand(entry, root, warnOnly),
      succeeds);
  }

  /** A completed feature without evidence stops a commit, unless the guard only warns or cannot check. */
  lemma CommitStopped(entry: string, root: string, warnOnly: bool, succeeds: string -> bool,
      features: seq<FeatureList.Feature>)
    requires OneLine(entry) && OneLine(root)
    requires succeeds(CheckCommand(entry, root, warnOnly)) <==> warnOnly || FeatureList.Clean(features)
    ensures RunScript(Shim(entry, root, warnOnly), succeeds) == 1
      <==> && !warnOnly && !succeeds(SKIPPED) && succeeds(NODE_FOUND) && succeeds(AmberFound(entry))
           && exists f :: f in features && f.status in ["passing", "accepted", "done"] && f.evidence == []
  {
    GuardExact(entry, root, warnOnly, succeeds);
  }
}

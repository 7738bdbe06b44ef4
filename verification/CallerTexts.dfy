/**
 * Calls that show where the conditions of the seam theorems bite: parameter texts that spell flags, and lists
 * read as one text.
 */
module CallerTexts {
  import opened Wrappers
  import opened Lists
  import opened Text
  import opened StringSort
  import opened ActionContracts
  import opened ActionRuntime
  import opened ArgumentSlots
  import opened ActionServer
  import opened CliSeam
  import opened ParsedFlags
  import opened SpawnedLines
  import opened TwoSeams
  import opened CommandCapabilities
  import opened FlagRows
  import opened ShippedActions

  // ---- one placed parameter ----

  lemma OnePlaced(source: string, key: string, text: string, optional: bool)
    requires source != "" && SourceKey(source) == key
    ensures Emit([Placed(0, source, optional)], map[key := Str(text)]) == Built([Some(text)], [])
  {
    var t, p := Placed(0, source, optional), map[key := Str(text)];
    assert [t][..0] == [];
    assert StepOf(t, p) == Place(0, Some(text));
    assert SetAt([], 0, Some(text)) == [Some(text)];
  }

  lemma LineOfOne(m: Mapping, text: string, target: string)
    ensures SpawnedLine(m, Built([Some(text)], []), target) == [m.subcommand, text, "--target", target]
  {
    var b := Built([Some(text)], []);
    assert Argv(m, b) == [Some(m.command), Some(m.subcommand), Some(text)];
    assert Texts(Argv(m, b)) == [m.command, m.subcommand, text];
  }

  lemma DropsParameters(name: string)
    ensures SourceKey("parameters." + name) == name
  {
  }

  lemma SourceNames()
    ensures SourceKey("parameters.routeId") == "routeId" && SourceKey("parameters.sessionId") == "sessionId"
    ensures SourceKey("parameters.a") == "a" && SourceKey("parameters.b") == "b"
  {
    assert "parameters." + "routeId" == "parameters.routeId" && "parameters." + "sessionId" == "parameters.sessionId";
    assert "parameters." + "a" == "parameters.a" && "parameters." + "b" == "parameters.b";
    DropsParameters("routeId");
    DropsParameters("sessionId");
    DropsParameters("a");
    DropsParameters("b");
  }

  lemma NameNoFlag(cli: Cli, specs: FlagTable, i: nat, m: Mapping)
    requires ShippedTables(cli, specs) && i < |SHIPPED_READS| && SHIPPED_READS[i].execution == Some(Plain(m))
    ensures m.subcommand !in specs && KeyOf(m) in COMMAND_CAPABILITIES
  {
    ShippedReadPlain(i);
    assert ("", m) in SHIPPED_READS[i].execution.value.Entries();
    RegisteredNames(cli, specs, m);
  }

  lemma ReadStarted(i: nat, p: Parameters, m: Mapping, b: Build)
    requires i < |SHIPPED_READS| && SHIPPED_READS[i].execution == Some(Plain(m))
    requires Emit(m.args, p) == b && b.Built?
    ensures Started(COMMAND_CAPABILITIES, SHIPPED_READS[i], p)
  {
    var a := SHIPPED_READS[i];
    ShippedReadPlain(i);
    PlainReadsAccepted(a.actionTypeId, a.execution.value);
    assert ("", m) in a.execution.value.Entries();
  }

  /** A route named like a boolean flag does not arrive: the CLI is asked to test no route. */
  lemma RouteNameLost(cli: Cli, specs: FlagTable, target: string, cwd: string)
    requires ShippedTables(cli, specs) && target !in specs
    ensures var p, m := map["routeId" := Str("--json")], ROUTE_TEST.execution.value.mapping;
      && Started(COMMAND_CAPABILITIES, ROUTE_TEST, p)
      && ParseArgs(SpawnedLine(m, Emit(m.args, p), target), specs, Defaults(cwd)).positional == ["test"]
  {
    var p, m := map["routeId" := Str("--json")], ROUTE_TEST.execution.value.mapping;
    SourceNames();
    OnePlaced("parameters.routeId", "routeId", "--json", false);
    LineOfOne(m, "--json", target);
    ReadNames();
    ReadStarted(4, p, m, Emit(m.args, p));
    NameNoFlag(cli, specs, 4, m);
    RowsUsed();
    ReadsAroundBoolean("test", "--json", "--target", target, specs);
    PositionalsExact(["test", "--json", "--target", target], specs, Defaults(cwd));
  }

  /** A name, a boolean flag, a flag and its value. */
  lemma ReadsAroundBoolean(name: string, flag: string, other: string, value: string, specs: FlagTable)
    requires name !in specs && flag in specs && specs[flag].boolean && other in specs && !specs[other].boolean
    ensures PositionalsRead([name, flag, other, value], specs) == [name]
  {
    var line := [name, flag, other, value];
    assert line[1..] == [flag, other, value] && line[1..][1..] == [other, value] && [other, value][2..] == [];
    assert PositionalsRead([other, value], specs) == [];
  }

  /**
   * A session named `--target` moves the command to a directory of that name, and the target into the
   * session's place; the handler is reached all the same.
   */
  lemma SessionMovesTarget(cli: Cli, specs: FlagTable, target: string, cwd: string)
    requires ShippedTables(cli, specs) && target !in specs
    ensures var p, m := map["sessionId" := Str("--target")], SESSION_STATUS.execution.value.mapping;
      && Started(COMMAND_CAPABILITIES, SESSION_STATUS, p)
      && !CallKeepsTarget(COMMAND_CAPABILITIES, specs, SESSION_STATUS, p, target, cwd)
      && var args := ParseArgs(SpawnedLine(m, Emit(m.args, p), target), specs, Defaults(cwd));
      && args.positional == ["status", target] && Holds(args, "target", "--target")
  {
    var p, m := map["sessionId" := Str("--target")], SESSION_STATUS.execution.value.mapping;
    SourceNames();
    OnePlaced("parameters.sessionId", "sessionId", "--target", true);
    LineOfOne(m, "--target", target);
    ReadNames();
    ReadStarted(6, p, m, Emit(m.args, p));
    NameNoFlag(cli, specs, 6, m);
    FlagTakesFlag("status", "--target", target, specs, cwd);
  }

  /** A name, then a flag that takes its own spelling as its value. */
  lemma FlagTakesFlag(name: string, flag: string, value: string, specs: FlagTable, cwd: string)
    requires name !in specs && flag in specs && specs[flag] == FlagSpec("target", false, None) && value !in specs
    ensures var args := ParseArgs([name, flag, flag, value], specs, Defaults(cwd));
      args.positional == [name, value] && Holds(args, "target", flag)
  {
    var start := Defaults(cwd);
    var line := [name, flag, flag, value];
    var named := start.(positional := start.positional + [name]);
    var moved := SetValue(named, FlagSpec("target", false, None), Some(flag));
    assert line[1..] == [flag, flag, value] && line[1..][2..] == [value] && [value][1..] == [];
    assert ParseArgs(line, specs, start) == ParseArgs([value], specs, moved);
    assert ParseArgs([value], specs, moved) == moved.(positional := moved.positional + [value]);
  }

  /** A session named `--help` never reaches the handler: the CLI prints its usage. */
  lemma SessionShowsHelp(cli: Cli, specs: FlagTable, target: string, cwd: string)
    requires ShippedTables(cli, specs) && target !in specs
    ensures var p := map["sessionId" := Str("--help")];
      && Started(COMMAND_CAPABILITIES, SESSION_STATUS, p)
      && RunResult(cli, Some(SHIPPED_READS), specs, ArgvOfCall(COMMAND_CAPABILITIES, SESSION_STATUS, p, target), cwd)
         == Shown(ShowUsage)
  {
    var p, m := map["sessionId" := Str("--help")], SESSION_STATUS.execution.value.mapping;
    SourceNames();
    OnePlaced("parameters.sessionId", "sessionId", "--help", true);
    LineOfOne(m, "--help", target);
    ReadNames();
    ReadStarted(6, p, m, Emit(m.args, p));
    HelpDecided(cli, specs, p, m, target, cwd);
  }

  lemma HelpDecided(cli: Cli, specs: FlagTable, p: Parameters, m: Mapping, target: string, cwd: string)
    requires ShippedTables(cli, specs) && target !in specs && SESSION_STATUS.execution == Some(Plain(m))
    requires Started(COMMAND_CAPABILITIES, SESSION_STATUS, p)
    requires SpawnedLine(m, Emit(m.args, p), target) == [m.subcommand, "--help", "--target", target]
    ensures RunResult(cli, Some(SHIPPED_READS), specs, ArgvOfCall(COMMAND_CAPABILITIES, SESSION_STATUS, p, target), cwd)
         == Shown(ShowUsage)
  {
    ReadNames();
    NameNoFlag(cli, specs, 6, m);
    HelpRow(specs);
    ReadFirst([m.subcommand], "--help", ["--target", target], specs);
    assert [m.subcommand] + ["--help"] + ["--target", target] == [m.subcommand, "--help", "--target", target];
    ShippedReadsAccepted();
    assert SESSION_STATUS in SHIPPED_READS;
    StartedDecided(cli, specs, SHIPPED_READS, SESSION_STATUS, p, target, cwd);
  }

  // ---- accepted actions that are not write-free ----

  lemma ReadPasses(a: Action, m: Mapping, cap: Capability, id: string, ex: Execution)
    requires a == ReadAction(id, ex) && cap == ReadCommand(cap.writeFlags) && !BindsWriteFlag(cap, m)
    ensures forall k :: !Fails(a, m, cap, k)
  {
  }

  lemma ReadAccepted(reg: Registry, id: string, m: Mapping, writeFlags: seq<string>)
    requires id != "" && KeyOf(m) in reg && reg[KeyOf(m)] == ReadCommand(writeFlags)
    requires !BindsWriteFlag(ReadCommand(writeFlags), m)
    ensures Accepted(reg, ReadAction(id, Plain(m)))
    ensures IsReadOnlyExecutable(reg, ReadAction(id, Plain(m))) && DirectRead(reg, m)
  {
    var a := ReadAction(id, Plain(m));
    ReadPasses(a, m, reg[KeyOf(m)], id, Plain(m));
    NoEntryFindings(reg, a, Plain(m).Entries());
  }

  lemma RunEntry()
    ensures CapabilityKey("session", "run") in COMMAND_CAPABILITIES
    ensures COMMAND_CAPABILITIES[CapabilityKey("session", "run")] == ReadCommand(["--execute"])
  {
    Registered(3);
  }

  /** The session run with two parameters put on its line in some way. */
  function RunWith(one: Template, two: Template): Mapping {
    Mapping("session", "run", [one, two])
  }

  const PLACING := RunWith(Placed(0, "parameters.a", false), Placed(1, "parameters.b", false))
  const VALUING := RunWith(FlagFrom("--json", "parameters.a", false), FlagFrom("--json", "parameters.b", false))

  function Example(m: Mapping): Action {
    ReadAction("example.session.run", Plain(m))
  }

  const SENT: Parameters := map["a" := Str("--execute"), "b" := Str("--yes")]

  lemma PlacingEmits()
    ensures Emit(PLACING.args, SENT) == Built([Some("--execute"), Some("--yes")], [])
  {
    var args := PLACING.args;
    SourceNames();
    assert args[..1] == [args[0]] && args[..1][..0] == [];
    assert StepOf(args[0], SENT) == Place(0, Some("--execute"));
    assert StepOf(args[1], SENT) == Place(1, Some("--yes"));
    assert SetAt([], 0, Some("--execute")) == [Some("--execute")];
    assert SetAt([Some("--execute")], 1, Some("--yes")) == [Some("--execute"), Some("--yes")];
    assert Emit(args[..1], SENT) == Built([Some("--execute")], []);
  }

  lemma ValuingEmits()
    ensures Emit(VALUING.args, SENT)
         == Built([], [Valued(Some("--json"), Some("--execute")), Valued(Some("--json"), Some("--yes"))])
  {
    var args := VALUING.args;
    SourceNames();
    var x, y := Valued(Some("--json"), Some("--execute")), Valued(Some("--json"), Some("--yes"));
    assert args[..1] == [args[0]] && args[..1][..0] == [];
    assert StepOf(args[0], SENT) == Bind(x) && StepOf(args[1], SENT) == Bind(y);
    assert Emit(args[..1], SENT) == Built([], [x]);
    assert [x] + [y] == [x, y];
  }

  const PLACED_FLAGS := ["--execute", "--yes"]
  const VALUED_FLAGS := ["--json", "--execute", "--json", "--yes"]

  lemma PlacedAsks()
    ensures AsksForWrite(PLACED_FLAGS)
  {
    assert PLACED_FLAGS[0] == "--execute" && PLACED_FLAGS[1] == "--yes";
  }

  lemma ValuedAsks()
    ensures AsksForWrite(VALUED_FLAGS)
  {
    assert VALUED_FLAGS[1] == "--execute" && VALUED_FLAGS[3] == "--yes";
  }

  /** The line of a vector without holes that starts with the two names. */
  lemma LineOfTexts(m: Mapping, p: Parameters, argv: seq<Option<string>>, texts: seq<string>, target: string)
    requires Emit(m.args, p).Built? && Argv(m, Emit(m.args, p)) == argv
    requires |argv| == |texts| + 2 && argv[0] == Some(m.command) && argv[1] == Some(m.subcommand)
    requires forall i :: 0 <= i < |texts| ==> argv[i + 2] == Some(texts[i])
    ensures SpawnedLine(m, Emit(m.args, p), target) == [m.subcommand] + (texts + ["--target", target])
  {
    assert forall i :: 2 <= i < |argv| ==> argv[i] == Some(texts[i - 2]);
    assert Texts(argv) == [m.command, m.subcommand] + texts;
  }

  lemma PlacingLine(target: string)
    ensures Emit(PLACING.args, SENT).Built?
    ensures SpawnedLine(PLACING, Emit(PLACING.args, SENT), target) == ["run"] + (PLACED_FLAGS + ["--target", target])
  {
    PlacingEmits();
    var argv := [Some("session"), Some("run"), Some("--execute"), Some("--yes")];
    assert Argv(PLACING, Built([Some("--execute"), Some("--yes")], [])) == argv;
    LineOfTexts(PLACING, SENT, argv, PLACED_FLAGS, target);
  }

  lemma ValuingTokens()
    ensures Tokens([Valued(Some("--json"), Some("--execute")), Valued(Some("--json"), Some("--yes"))])
         == [Some("--json"), Some("--execute"), Some("--json"), Some("--yes")]
  {
    var x, y := Valued(Some("--json"), Some("--execute")), Valued(Some("--json"), Some("--yes"));
    assert [x, y][..1] == [x] && [x][..0] == [];
  }

  lemma ValuingLine(target: string)
    ensures Emit(VALUING.args, SENT).Built?
    ensures SpawnedLine(VALUING, Emit(VALUING.args, SENT), target) == ["run"] + (VALUED_FLAGS + ["--target", target])
  {
    ValuingEmits();
    ValuingTokens();
    var argv := [Some("session"), Some("run"), Some("--json"), Some("--execute"), Some("--json"), Some("--yes")];
    assert Argv(VALUING, Emit(VALUING.args, SENT)) == argv;
    LineOfTexts(VALUING, SENT, argv, VALUED_FLAGS, target);
  }

  predicate Booleans(flags: seq<string>, specs: FlagTable) {
    forall f :: f in flags ==> f in specs && specs[f].boolean
  }

  /** Boolean flags, and a flag with its value at the end. */
  lemma {:induction false} BooleansRead(flags: seq<string>, other: string, value: string, specs: FlagTable)
    requires Booleans(flags, specs) && other in specs && !specs[other].boolean
    ensures FlagsRead(flags + [other, value], specs) == flags + [other]
    decreases |flags|
  {
    var line := flags + [other, value];
    if flags == [] {
      assert line == [other, value] && line[2..] == [] && flags + [other] == [other];
    } else {
      assert flags[0] in flags && line[1..] == flags[1..] + [other, value];
      BooleansRead(flags[1..], other, value, specs);
      assert flags + [other] == [flags[0]] + (flags[1..] + [other]);
    }
  }

  predicate IsSet(args: Args, key: string) {
    key in args.keys && args.keys[key] == Flag(true)
  }

  /** Each of them sets its key, which the flag at the end does not take. */
  lemma {:induction false} BooleansSet(
      flags: seq<string>, other: string, value: string, specs: FlagTable, args: Args, key: string)
    requires Booleans(flags, specs) && other in specs && !specs[other].boolean
    requires key != specs[other].key && specs[other].accumulate == None
    requires IsSet(args, key) || exists f :: f in flags && specs[f].key == key
    ensures IsSet(ParseArgs(flags + [other, value], specs, args), key)
    decreases |flags|
  {
    var line := flags + [other, value];
    if flags == [] {
      assert line == [other, value] && line[2..] == [];
    } else {
      assert flags[0] in flags && line[1..] == flags[1..] + [other, value] && flags == [flags[0]] + flags[1..];
      BooleansSet(flags[1..], other, value, specs, args.(keys := args.keys[specs[flags[0]].key := Flag(true)]), key);
    }
  }

  lemma SentRows(specs: FlagTable)
    requires Extends(specs)
    ensures RowIs("--execute", true) && RowIs("--yes", true) && RowIs("--json", true) && FLAG_ROWS["--yes"].key == "yes"
    ensures TargetRow(specs)
  {
    assert "--" + "execute" == "--execute" && "--" + "yes" == "--yes" && "--" + "json" == "--json";
    RowOf(10);
    RowOf(11);
    RowOf(13);
    RowFound(11);
    ShippedBasics();
  }

  lemma NoHelp(cli: Cli, specs: FlagTable, flags: seq<string>)
    requires ShippedTables(cli, specs) && forall f :: f in flags ==> f == "--target" || RowIs(f, true)
    ensures forall f :: f in flags ==> f !in HelpFlags(specs)
  {
    ShippedBasics();
    forall f | f in flags ensures f !in HelpFlags(specs) {
      if f != "--target" {
        var name := FlagShape(f);
      }
    }
  }

  /** Boolean flags of the run command, with `--execute` and `--yes` among them. */
  predicate AsksForWrite(flags: seq<string>) {
    && "--execute" in flags && "--yes" in flags
    && forall f :: f in flags ==> f == "--execute" || f == "--yes" || f == "--json"
  }

  lemma SentReads(cli: Cli, specs: FlagTable, name: string, flags: seq<string>, target: string)
    requires ShippedTables(cli, specs) && name !in specs && AsksForWrite(flags)
    ensures var line := [name] + (flags + ["--target", target]);
      && ReadsStop(specs, line, WriteFlags(specs, ReadCommand(["--execute"])))
      && !ReadsStop(specs, line, HelpFlags(specs))
  {
    SentRows(specs);
    var line := [name] + (flags + ["--target", target]);
    assert line[1..] == flags + ["--target", target];
    BooleansRead(flags, "--target", target, specs);
    NoHelp(cli, specs, flags + ["--target"]);
    assert FlagsRead(line, specs) == flags + ["--target"] && "--execute" in flags + ["--target"];
  }

  lemma SentApproves(cli: Cli, specs: FlagTable, name: string, flags: seq<string>, target: string, cwd: string)
    requires ShippedTables(cli, specs) && name !in specs && AsksForWrite(flags)
    ensures Approved(ParseArgs([name] + (flags + ["--target", target]), specs, Defaults(cwd)))
  {
    SentRows(specs);
    var tail, start := flags + ["--target", target], Defaults(cwd);
    var named := start.(positional := start.positional + [name]);
    assert ([name] + tail)[1..] == tail;
    BooleansSet(flags, "--target", target, specs, named, "yes");
    assert ParseArgs([name] + tail, specs, start) == ParseArgs(tail, specs, named);
  }

  lemma ExampleAccepted(m: Mapping)
    requires m == PLACING || m == VALUING
    ensures KeyOf(m) in COMMAND_CAPABILITIES && COMMAND_CAPABILITIES[KeyOf(m)] == ReadCommand(["--execute"])
    ensures Accepted(COMMAND_CAPABILITIES, Example(m)) && IsReadOnlyExecutable(COMMAND_CAPABILITIES, Example(m))
    ensures DirectRead(COMMAND_CAPABILITIES, m)
  {
    RunEntry();
    assert "--json" != "--execute";
    ReadAccepted(COMMAND_CAPABILITIES, "example.session.run", m, ["--execute"]);
  }

  /** An accepted action whose call is started as a read, and which the CLI runs as an approved write. */
  ghost predicate RunsAsWrite(cli: Cli, specs: FlagTable, a: Action, p: Parameters, target: string, cwd: string) {
    && a.execution.Some? && Accepted(cli.reg, a) && Started(cli.reg, a, p)
    && var r := RunResult(cli, Some([a]), specs, ArgvOfCall(cli.reg, a, p, target), cwd);
    r.Answered? && r.dispatched.Handled? && !r.HandledAsRead()
  }

  lemma SentCall(cli: Cli, specs: FlagTable, m: Mapping, flags: seq<string>, target: string, cwd: string)
    requires ShippedTables(cli, specs) && target !in specs && (m == PLACING || m == VALUING)
    requires Emit(m.args, SENT).Built? && AsksForWrite(flags)
    requires SpawnedLine(m, Emit(m.args, SENT), target) == [m.subcommand] + (flags + ["--target", target])
    ensures RunsAsWrite(cli, specs, Example(m), SENT, target, cwd) && !WriteFree(cli.reg, specs, Example(m))
  {
    ExampleAccepted(m);
    RegisteredNames(cli, specs, m);
    SentReads(cli, specs, m.subcommand, flags, target);
    SentApproves(cli, specs, m.subcommand, flags, target, cwd);
    SentDecided(cli, specs, Example(m), m, target, cwd);
    assert !SpawnIsSafe(cli.reg, specs, Example(m), SENT, target);
    SpawnSafetyExact(cli.reg, specs, Example(m));
  }

  lemma SentDecided(cli: Cli, specs: FlagTable, a: Action, m: Mapping, target: string, cwd: string)
    requires TablesAgree(cli, specs) && Accepted(cli.reg, a) && a.execution == Some(Plain(m)) && target !in specs
    requires KeyOf(m) in cli.reg && Started(cli.reg, a, SENT)
    requires var line := SpawnedLine(m, Emit(m.args, SENT), target);
      && ReadsStop(specs, line, WriteFlags(specs, cli.reg[KeyOf(m)]))
      && !ReadsStop(specs, line, HelpFlags(specs)) && Approved(ParseArgs(line, specs, Defaults(cwd)))
    ensures RunsAsWrite(cli, specs, a, SENT, target, cwd)
  {
    StartedDecided(cli, specs, [a], a, SENT, target, cwd);
  }

  /** An accepted action that places parameters of a command with write flags. */
  lemma PlacedFlagsRun(cli: Cli, specs: FlagTable, target: string, cwd: string)
    requires ShippedTables(cli, specs) && target !in specs
    ensures RunsAsWrite(cli, specs, Example(PLACING), SENT, target, cwd) && !WriteFree(cli.reg, specs, Example(PLACING))
  {
    PlacingLine(target);
    PlacedAsks();
    SentCall(cli, specs, PLACING, PLACED_FLAGS, target, cwd);
  }

  /** An accepted action that pushes parameters behind a flag which takes no value. */
  lemma ValuedFlagsRun(cli: Cli, specs: FlagTable, target: string, cwd: string)
    requires ShippedTables(cli, specs) && target !in specs
    ensures RunsAsWrite(cli, specs, Example(VALUING), SENT, target, cwd) && !WriteFree(cli.reg, specs, Example(VALUING))
  {
    ValuingLine(target);
    ValuedAsks();
    SentCall(cli, specs, VALUING, VALUED_FLAGS, target, cwd);
  }

  /** A session run with this one template. */
  function RunOf(t: Template): Mapping {
    Mapping("session", "run", [t])
  }

  /** A flag with a value that the author forgot to give. */
  function FlagUnset(flag: string): Template {
    Template(None, Some(flag), None, None, false, false)
  }

  const BARE := RunOf(FlagAlone("--execute"))
  const UNSET := RunOf(FlagUnset("--execute"))

  /** The template pushes the write flag, as this binding. */
  predicate IsExecuting(t: Template, b: Binding, p: Parameters) {
    && (t == FlagAlone("--execute") || t == FlagUnset("--execute"))
    && StepOf(t, p) == Bind(b) && b.flag == Some("--execute")
  }

  lemma OneEmits(t: Template, b: Binding, p: Parameters)
    requires StepOf(t, p) == Bind(b)
    ensures Emit(RunOf(t).args, p) == Built([], [b])
    ensures Argv(RunOf(t), Built([], [b])) == [Some("session"), Some("run")] + TokensOf(b)
  {
    assert RunOf(t).args[..0] == [];
    assert [] + [b] == [b] && [b][..0] == [];
    assert Tokens([b]) == TokensOf(b);
  }

  lemma OneLine(t: Template, b: Binding, p: Parameters, target: string)
    requires StepOf(t, p) == Bind(b) && b.flag == Some("--execute")
    ensures Emit(RunOf(t).args, p).Built?
    ensures SpawnedLine(RunOf(t), Emit(RunOf(t).args, p), target)
         == ["run"] + ["--execute"] + (Texts(TokensOf(b)[1..]) + ["--target", target])
  {
    OneEmits(t, b, p);
    assert TokensOf(b) == [Some("--execute")] + TokensOf(b)[1..];
    TextsAppend([Some("session"), Some("run")], TokensOf(b));
    TextsAppend([Some("--execute")], TokensOf(b)[1..]);
    assert Texts([Some("session"), Some("run")]) == ["session", "run"] && Texts([Some("--execute")]) == ["--execute"];
  }

  lemma ExecuteRead(cli: Cli, specs: FlagTable, rest: seq<string>)
    requires ShippedTables(cli, specs) && "run" !in specs && rest != []
    ensures ReadsStop(specs, ["run"] + ["--execute"] + rest, WriteFlags(specs, ReadCommand(["--execute"])))
  {
    SentRows(specs);
    ReadFirst(["run"], "--execute", rest, specs);
    assert "--execute" in ["--execute"];
  }

  /** A started call whose line has a write flag behind the name is not handled as a read. */
  lemma ExecuteDecided(cli: Cli, specs: FlagTable, a: Action, m: Mapping, p: Parameters, rest: seq<string>,
      target: string, cwd: string)
    requires ShippedTables(cli, specs) && target !in specs && rest != []
    requires a.execution == Some(Plain(m)) && Accepted(cli.reg, a) && Started(cli.reg, a, p)
    requires m.subcommand == "run" && KeyOf(m) in cli.reg && cli.reg[KeyOf(m)] == ReadCommand(["--execute"])
    requires SpawnedLine(m, Emit(m.args, p), target) == ["run"] + ["--execute"] + rest
    ensures !SpawnIsSafe(cli.reg, specs, a, p, target)
    ensures !RunResult(cli, Some([a]), specs, ArgvOfCall(cli.reg, a, p, target), cwd).HandledAsRead()
  {
    RegisteredNames(cli, specs, m);
    ExecuteRead(cli, specs, rest);
    StartedDecided(cli, specs, [a], a, p, target, cwd);
  }

  /** No call of such an action is handled as the read it is started as. */
  lemma OneReached(cli: Cli, specs: FlagTable, t: Template, b: Binding, p: Parameters, target: string, cwd: string)
    requires ShippedTables(cli, specs) && target !in specs && IsExecuting(t, b, p)
    ensures var a := Example(RunOf(t));
      && Started(cli.reg, a, p) && !SpawnIsSafe(cli.reg, specs, a, p, target)
      && !RunResult(cli, Some([a]), specs, ArgvOfCall(cli.reg, a, p, target), cwd).HandledAsRead()
  {
    OneAccepted(t);
    OneLine(t, b, p, target);
    var rest := Texts(TokensOf(b)[1..]) + ["--target", target];
    ExecuteDecided(cli, specs, Example(RunOf(t)), RunOf(t), p, rest, target, cwd);
  }

  lemma OneAccepted(t: Template)
    requires t == FlagAlone("--execute") || t == FlagUnset("--execute")
    ensures KeyOf(RunOf(t)) in COMMAND_CAPABILITIES
    ensures COMMAND_CAPABILITIES[KeyOf(RunOf(t))] == ReadCommand(["--execute"])
    ensures Accepted(COMMAND_CAPABILITIES, Example(RunOf(t)))
    ensures IsReadOnlyExecutable(COMMAND_CAPABILITIES, Example(RunOf(t))) && DirectRead(COMMAND_CAPABILITIES, RunOf(t))
  {
    RunEntry();
    ReadAccepted(COMMAND_CAPABILITIES, "example.session.run", RunOf(t), ["--execute"]);
  }

  /** An accepted action that is spawned with this vector on every call, and never handled as a read. */
  ghost predicate AlwaysWrites(cli: Cli, specs: FlagTable, a: Action, argv: seq<Option<string>>) {
    && a.execution.Some? && Accepted(cli.reg, a)
    && (forall p, active, corrupt :: Decide(cli.reg, a, p, active, corrupt) == Spawned(argv))
    && forall p, target, cwd :: Started(cli.reg, a, p) && target !in specs ==>
         !RunResult(cli, Some([a]), specs, ArgvOfCall(cli.reg, a, p, target), cwd).HandledAsRead()
  }

  lemma OneDecided(reg: Registry, t: Template, b: Binding, p: Parameters, active: seq<Session>, corrupt: seq<string>)
    requires reg == COMMAND_CAPABILITIES && IsExecuting(t, b, p)
    ensures Decide(reg, Example(RunOf(t)), p, active, corrupt) == Spawned([Some("session"), Some("run")] + TokensOf(b))
  {
    OneAccepted(t);
    OneEmits(t, b, p);
  }

  lemma OneAlwaysWrites(cli: Cli, specs: FlagTable, t: Template, b: Binding, argv: seq<Option<string>>)
    requires ShippedTables(cli, specs) && forall p :: IsExecuting(t, b, p)
    requires argv == [Some("session"), Some("run")] + TokensOf(b)
    ensures AlwaysWrites(cli, specs, Example(RunOf(t)), argv) && !WriteFree(cli.reg, specs, Example(RunOf(t)))
  {
    var a := Example(RunOf(t));
    var none: Parameters := map[];
    assert IsExecuting(t, b, none);
    OneAccepted(t);
    forall p, active, corrupt ensures Decide(cli.reg, a, p, active, corrupt) == Spawned(argv) {
      OneDecided(cli.reg, t, b, p, active, corrupt);
    }
    forall p, target, cwd | Started(cli.reg, a, p) && target !in specs
      ensures !RunResult(cli, Some([a]), specs, ArgvOfCall(cli.reg, a, p, target), cwd).HandledAsRead()
    {
      OneReached(cli, specs, t, b, p, target, cwd);
    }
    var target := FreeText(specs);
    OneReached(cli, specs, t, b, none, target, "");
    SentRows(specs);
    SpawnSafetyExact(cli.reg, specs, a);
  }

  /** An accepted action that pushes a write flag as a flag without a value. */
  lemma BareFlagAccepted(cli: Cli, specs: FlagTable)
    requires ShippedTables(cli, specs)
    ensures AlwaysWrites(cli, specs, Example(BARE), [Some("session"), Some("run"), Some("--execute")])
    ensures !WriteFree(cli.reg, specs, Example(BARE))
  {
    var argv := [Some("session"), Some("run"), Some("--execute")];
    assert argv == [Some("session"), Some("run")] + TokensOf(Alone(Some("--execute")));
    OneAlwaysWrites(cli, specs, FlagAlone("--execute"), Alone(Some("--execute")), argv);
  }

  /** An accepted action that pushes a write flag with a value that is nowhere given, and passed as `undefined`. */
  lemma UnsetFlagAccepted(cli: Cli, specs: FlagTable)
    requires ShippedTables(cli, specs)
    ensures AlwaysWrites(cli, specs, Example(UNSET), [Some("session"), Some("run"), Some("--execute"), None])
    ensures !WriteFree(cli.reg, specs, Example(UNSET))
  {
    var argv := [Some("session"), Some("run"), Some("--execute"), None];
    assert argv == [Some("session"), Some("run")] + TokensOf(Valued(Some("--execute"), None));
    OneAlwaysWrites(cli, specs, FlagUnset("--execute"), Valued(Some("--execute"), None), argv);
  }

  // ---- an accepted action out of parity ----

  const EVENTS := ".amber/context/events.jsonl"
  const REGISTRY := ".amber/memory/registry/"

  const JOINED := Action(
    "example.memory.approve", "interactive", Some(Plain(Mapping("memory", "approve", []))),
    [EVENTS + "\n" + REGISTRY], ["ledger-append"], ["human"], ["approval-record"], ["approval-record"])

  lemma {:induction false} LeqFrom(a: string, b: string, i: nat)
    requires i < |a| && i < |b| && a[..i] == b[..i] && a[i] < b[i]
    ensures Leq(a, b) && !Leq(b, a)
    decreases i
  {
    if i > 0 {
      assert a[..i][0] == b[..i][0];
      assert a[1..][..i - 1] == a[..i][1..] && b[1..][..i - 1] == b[..i][1..];
      LeqFrom(a[1..], b[1..], i - 1);
    }
  }

  /** Two edits, one of them spelled as the other two on two lines: the sorted texts are the same. */
  lemma JoinedText()
    ensures SameText([REGISTRY, EVENTS], JOINED.edits)
  {
    assert EVENTS[..7] == ".amber/" && REGISTRY[..7] == ".amber/" && EVENTS[7] == 'c' && REGISTRY[7] == 'm';
    LeqFrom(EVENTS, REGISTRY, 7);
    SortPair(REGISTRY, EVENTS);
    SortOne(EVENTS + "\n" + REGISTRY);
  }

  lemma SortOne(x: string)
    ensures Sort([x]) == [x] && Join([x], "\n") == x
  {
    assert [x][1..] == [];
  }

  lemma SortPair(x: string, y: string)
    requires !Leq(x, y)
    ensures Sort([x, y]) == [y, x] && Join([y, x], "\n") == y + "\n" + x
  {
    assert [x, y][1..] == [y] && [y, x][1..] == [x];
    SortOne(y);
    SortOne(x);
    assert [y][1..] == [];
    assert Insert(x, [y]) == [y] + Insert(x, []);
  }

  lemma OutOfParity(reg: Registry, a: Action, m: Mapping)
    requires CleanRegistry(reg) && a.execution == Some(Plain(m)) && a.actionTypeId != "" && a.mode != "autonomous"
    requires KeyOf(m) in reg && (forall k :: !Fails(a, m, reg[KeyOf(m)], k)) && !ListableEffects(a)
    ensures Accepted(reg, a) && !InParity(reg, a)
  {
    NoEntryFindings(reg, a, Plain(m).Entries());
    assert ("", m) in Plain(m).Entries();
    AcceptedParityExact(reg, a);
  }

  lemma JoinedNotListable()
    ensures !ListableEffects(JOINED)
  {
    assert (EVENTS + "\n" + REGISTRY)[|EVENTS|] == '\n';
    assert !Free(JOINED.edits[0], '\n');
  }

  /** It passes the validator and declares one edit where its command makes two. */
  lemma AcceptedOutOfParity()
    ensures Accepted(COMMAND_CAPABILITIES, JOINED) && !InParity(COMMAND_CAPABILITIES, JOINED)
  {
    ApproveEntry();
    ShippedRegistryKept();
    JoinedPasses();
    JoinedNotListable();
    OutOfParity(COMMAND_CAPABILITIES, JOINED, JOINED.execution.value.mapping);
  }

  const APPROVE := WriteCommand("human", "approval-record", [REGISTRY, EVENTS], ["ledger-append"])

  lemma ApproveEntry()
    ensures CapabilityKey("memory", "approve") in COMMAND_CAPABILITIES
    ensures COMMAND_CAPABILITIES[CapabilityKey("memory", "approve")] == APPROVE
  {
    Registered(14);
  }

  lemma JoinedPasses()
    ensures forall k :: !Fails(JOINED, JOINED.execution.value.mapping, APPROVE, k)
  {
    JoinedText();
  }
}

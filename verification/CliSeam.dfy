/** scripts/lib/cli-typed-seam.js and the argument parser in front of it: what the CLI lets run. */
module CliSeam {
  import opened Wrappers
  import opened Text
  import opened ActionContracts

  // ---- scripts/lib/core/cli-output.js: parseArgs over the flag table ----

  datatype FlagSpec = FlagSpec(key: string, boolean: bool, accumulate: Option<string>)

  /** `Missing` is the value of a value flag that ends the line; a list holds None for it. */
  datatype ArgValue = Flag(on: bool) | Text(text: string) | Many(items: seq<Option<string>>) | Missing {
    /** Not undefined, null or false. */
    predicate Bound() {
      this != Missing && this != Flag(false)
    }

    predicate Truthy() {
      match this
      case Flag(on) => on
      case Text(t) => t != ""
      case Many(_) => true
      case Missing => false
    }
  }

  datatype Args = Args(positional: seq<string>, keys: map<string, ArgValue>)

  type FlagTable = map<string, FlagSpec>

  function Items(v: ArgValue): seq<Option<string>> {
    if v.Many? then v.items else []
  }

  /** One value flag with the token after it, if there is one. */
  function SetValue(args: Args, spec: FlagSpec, value: Option<string>): Args {
    var keys := args.keys[spec.key := if value.Some? then Text(value.value) else Missing];
    if spec.accumulate.None? then args.(keys := keys) else
      var all := spec.accumulate.value;
      args.(keys := keys[all := Many((if all in keys then Items(keys[all]) else []) + [value])])
  }

  function ParseArgs(argv: seq<string>, specs: FlagTable, args: Args): Args
    decreases |argv|
  {
    if argv == [] then args
    else if argv[0] !in specs then ParseArgs(argv[1..], specs, args.(positional := args.positional + [argv[0]]))
    else
      var spec := specs[argv[0]];
      if spec.boolean then ParseArgs(argv[1..], specs, args.(keys := args.keys[spec.key := Flag(true)]))
      else if |argv| == 1 then SetValue(args, spec, None)
      else ParseArgs(argv[2..], specs, SetValue(args, spec, Some(argv[1])))
  }

  function Defaults(cwd: string): Args {
    Args([], map["target" := Text(cwd), "json" := Flag(false), "dryRun" := Flag(false)])
  }

  method RunParseArgs(argv: seq<string>, specs: FlagTable, cwd: string) returns (args: Args)
    ensures args == ParseArgs(argv, specs, Defaults(cwd))
  {
    args := Defaults(cwd);
    var index := 0;
    while index < |argv|
      invariant index <= |argv|
      invariant ParseArgs(argv, specs, Defaults(cwd)) == ParseArgs(argv[index..], specs, args)
    {
      var arg := argv[index];
      assert argv[index..][1..] == argv[index + 1..];
      if arg !in specs {
        args := args.(positional := args.positional + [arg]);
      } else if specs[arg].boolean {
        args := args.(keys := args.keys[specs[arg].key := Flag(true)]);
      } else if index + 1 < |argv| {
        assert argv[index..][2..] == argv[index + 2..];
        args := SetValue(args, specs[arg], Some(argv[index + 1]));
        index := index + 1;
      } else {
        return SetValue(args, specs[arg], None);
      }
      index := index + 1;
    }
  }

  // ---- scripts/lib/context/action-registry.js ----

  datatype ContextContract = ContextContract(name: string, effect: Effect, approvalRequired: bool)

  function ContextWrite(name: string): Option<ContextContract> {
    Some(ContextContract(name, Write, true))
  }

  function ContextRead(name: string): Option<ContextContract> {
    Some(ContextContract(name, Read, false))
  }

  function ResolveContext(action: string, positional: seq<string>): Option<ContextContract>
    requires positional != []
  {
    match action
    case "request" => ContextWrite(action)
    case "ingest" => ContextWrite(action)
    case "refresh" => ContextWrite(action)
    case "delete" => ContextWrite(action)
    case "load" => ContextWrite(action)
    case "benchmark" => ContextWrite(action)
    case "feedback" => ContextWrite(action)
    case "verify" => ContextRead(action)
    case "list" => ContextRead(action)
    case "show" => ContextRead(action)
    case "stats" => ContextRead(action)
    case "preview" => ContextRead(action)
    case "source-adapter" => ContextRead(action)
    case "source" => ContextRead("source-adapter")
    case "retention" => ContextRead(action)
    case "projection-status" => ContextRead("projection")
    case "projection-rebuild" => ContextWrite("projection")
    case "projection" =>
      if positional[|positional| - 1] == "rebuild" then ContextWrite("projection") else ContextRead("projection")
    case _ => None
  }

  // ---- scripts/lib/command-registry.js: startup parity of commands and capabilities ----

  function CommandOf(key: string): string {
    SplitOn(key, "/")[0]
  }

  datatype RegistryCheck = Valid | UndefinedCommands | TypedParityMismatch

  /** `definitions` maps each defined command to whether it is typed. */
  function ValidateCommandRegistry(definitions: map<string, bool>, reg: Registry): RegistryCheck {
    var capabilityCommands := set k | k in reg :: CommandOf(k);
    var typed := set c | c in definitions && definitions[c];
    if exists c :: c in capabilityCommands && c !in definitions then UndefinedCommands
    else if capabilityCommands != typed then TypedParityMismatch
    else Valid
  }

  /** Names without a slash can be read off their key. */
  lemma SameKey(command: string, sub: string, other: string, otherSub: string)
    requires '/' !in command && '/' !in sub && CapabilityKey(command, sub) == CapabilityKey(other, otherSub)
    ensures command == other && sub == otherSub
  {
    var key := CapabilityKey(command, sub);
    assert key == command + "/" + sub;
    assert forall i :: 0 <= i < |command| ==> key[i] == command[i];
    assert forall i :: |command| < i < |key| ==> key[i] == sub[i - |command| - 1];
    assert key[|other|] == '/';
    assert |other| == |command|;
    assert key[..|command|] == command && key[|command| + 1..] == sub;
    assert key[..|other|] == other && key[|other| + 1..] == otherSub;
  }

  lemma KeyCommand(command: string, sub: string)
    requires '/' !in command
    ensures CommandOf(CapabilityKey(command, sub)) == command
  {
    var key := CapabilityKey(command, sub);
    assert key[|command|..|command| + 1] == "/";
    forall i | 0 <= i < |command| ensures !MatchesAt(key, "/", i) {
      MatchChar(key, "/", i, 0);
      assert key[i] == command[i] && command[i] in command;
    }
    FoundAt(key, "/", 0, |command|);
  }

  /** After a successful startup check, exactly the commands with a registered capability are typed. */
  lemma RegistryCheckTypes(definitions: map<string, bool>, reg: Registry, command: string, sub: string)
    requires ValidateCommandRegistry(definitions, reg) == Valid
    requires '/' !in command && CapabilityKey(command, sub) in reg
    ensures command in definitions && definitions[command]
  {
    KeyCommand(command, sub);
    assert command in set k | k in reg :: CommandOf(k);
    assert command in set c | c in definitions && definitions[c];
  }

  // ---- classification ----

  /** `flag.replace(/^--/, "").replace(/-([a-z])/g, upper)`. */
  function KeyOfFlag(flag: string): string {
    Camel(if StartsWith(flag, "--") then flag[2..] else flag)
  }

  predicate IsUpper(c: char) {
    'A' <= c <= 'Z'
  }

  function ToUpper(c: char): char
    requires IsLower(c)
  {
    (c as int - 'a' as int + 'A' as int) as char
  }

  function ToLower(c: char): char
    requires IsUpper(c)
  {
    (c as int - 'A' as int + 'a' as int) as char
  }

  function Camel(s: string): string {
    if s == "" then ""
    else if s[0] == '-' && |s| > 1 && IsLower(s[1]) then [ToUpper(s[1])] + Camel(s[2..])
    else [s[0]] + Camel(s[1..])
  }

  /** `commands` are the names the CLI knows. */
  datatype Cli = Cli(reg: Registry, commands: set<string>, typed: set<string>, knownUntyped: set<string>)

  datatype Classified = Classified(key: string, effect: Effect, directReadOnlyExec: bool)

  predicate WriteFlagBound(writeFlags: seq<string>, args: Args) {
    exists f :: f in writeFlags && KeyOfFlag(f) in args.keys && args.keys[KeyOfFlag(f)].Bound()
  }

  function ClassifyCapability(key: string, effect: Effect, direct: bool, writeFlags: seq<string>,
      args: Args): Classified
  {
    var write := WriteFlagBound(writeFlags, args);
    Classified(key, if write then Write else effect, !write && direct)
  }

  function Classify(cli: Cli, command: string, args: Args): Option<Classified> {
    if command !in cli.typed || args.positional == [] || args.positional[0] == "" then None else
      var sub := args.positional[0];
      if command == "context" then
        var c := ResolveContext(sub, args.positional);
        if c.None? then None else
          Some(ClassifyCapability(CapabilityKey("context", c.value.name), c.value.effect,
                                  !c.value.approvalRequired && c.value.effect.Read?, [], args))
      else
        var key := CapabilityKey(command, sub);
        if key !in cli.reg then None else
          var cap := cli.reg[key];
          Some(ClassifyCapability(key, cap.effect, cap.directReadOnlyExec, cap.writeFlags, args))
  }

  // ---- the index of registered actions ----

  function IndexEntries(a: Action, entries: seq<(string, Mapping)>, index: map<string, Action>): map<string, Action> {
    if entries == [] then index
    else IndexEntries(a, entries[..|entries| - 1], index)[KeyOf(entries[|entries| - 1].1) := a]
  }

  function Index(actions: seq<Action>): map<string, Action>
    requires forall a :: a in actions ==> a.execution.Some?
  {
    if actions == [] then map[] else
      var a := actions[|actions| - 1];
      IndexEntries(a, a.execution.value.Entries(), Index(actions[..|actions| - 1]))
  }

  /** The keys indexed are exactly those some registered action maps to. */
  lemma {:induction false} IndexEntriesKeys(a: Action, entries: seq<(string, Mapping)>, index: map<string, Action>)
    ensures forall k ::
      k in IndexEntries(a, entries, index) <==> k in index || exists e :: e in entries && KeyOf(e.1) == k
    decreases |entries|
  {
    if entries != [] {
      var n := |entries| - 1;
      IndexEntriesKeys(a, entries[..n], index);
      assert entries == entries[..n] + [entries[n]];
    }
  }

  lemma {:induction false} IndexKeys(actions: seq<Action>)
    requires forall a :: a in actions ==> a.execution.Some?
    ensures forall k :: k in Index(actions) <==>
      exists a, e :: a in actions && e in a.execution.value.Entries() && KeyOf(e.1) == k
    decreases |actions|
  {
    if actions != [] {
      var n := |actions| - 1;
      IndexKeys(actions[..n]);
      IndexEntriesKeys(actions[n], actions[n].execution.value.Entries(), Index(actions[..n]));
      assert actions == actions[..n] + [actions[n]];
    }
  }

  predicate Maps(a: Action, key: string) {
    a.execution.Some? && exists e :: e in a.execution.value.Entries() && KeyOf(e.1) == key
  }

  /** The action is the last of the list that maps the capability. */
  ghost predicate LastMapping(actions: seq<Action>, key: string, a: Action) {
    exists i :: 0 <= i < |actions| && actions[i] == a && Maps(a, key)
      && forall j :: i < j < |actions| ==> !Maps(actions[j], key)
  }

  lemma {:induction false} IndexEntriesLast(a: Action, entries: seq<(string, Mapping)>, index: map<string, Action>,
      k: string)
    ensures var after := IndexEntries(a, entries, index);
      if exists e :: e in entries && KeyOf(e.1) == k then k in after && after[k] == a
      else (k in after <==> k in index) && (k in index ==> after[k] == index[k])
    decreases |entries|
  {
    if entries != [] {
      var n := |entries| - 1;
      IndexEntriesLast(a, entries[..n], index, k);
      assert entries == entries[..n] + [entries[n]];
    }
  }

  lemma LastMappingStays(actions: seq<Action>, k: string, a: Action)
    requires actions != [] && LastMapping(actions[..|actions| - 1], k, a) && !Maps(actions[|actions| - 1], k)
    ensures LastMapping(actions, k, a)
  {
    var n := |actions| - 1;
    var front := actions[..n];
    var i :| 0 <= i < n && front[i] == a && Maps(a, k) && forall j :: i < j < n ==> !Maps(front[j], k);
    assert actions[i] == a;
    forall j | i < j < |actions| ensures !Maps(actions[j], k) {
      assert j < n ==> actions[j] == front[j];
    }
  }

  /** Where two actions map one capability, the later one answers for it. */
  lemma {:induction false} IndexLast(actions: seq<Action>, k: string)
    requires forall a :: a in actions ==> a.execution.Some?
    ensures if k in Index(actions) then LastMapping(actions, k, Index(actions)[k])
            else forall a :: a in actions ==> !Maps(a, k)
    decreases |actions|
  {
    if actions != [] {
      var n := |actions| - 1;
      var front, last := actions[..n], actions[n];
      IndexLast(front, k);
      IndexEntriesLast(last, last.execution.value.Entries(), Index(front), k);
      if Maps(last, k) {
        assert actions[n] == last;
      } else if k in Index(front) {
        LastMappingStays(actions, k, Index(front)[k]);
      } else {
        assert actions == front + [last];
      }
    }
  }

  // ---- validation and dispatch ----

  datatype Disposition =
    | Untyped
    | Unmapped
    | Typed(capability: Classified, actionTypeId: string)
    | Invalid

  function Validate(cli: Cli, index: map<string, Action>, command: string, args: Args): Disposition {
    if command !in cli.typed then Untyped
    else if args.positional == [] || args.positional[0] == "" then Unmapped
    else
      var key := CapabilityKey(command, args.positional[0]);
      var capability := Classify(cli, command, args);
      if capability.None? then (if key in cli.knownUntyped then Untyped else Invalid)
      else if key in index then Typed(capability.value, index[key].actionTypeId)
      else if command == "context" then
        Typed(capability.value, "amber.context." + ResolveContext(args.positional[0], args.positional).value.name)
      else Invalid
  }

  predicate Approved(args: Args) {
    || ("yes" in args.keys && args.keys["yes"].Truthy())
    || ("confirm" in args.keys && args.keys["confirm"].Truthy())
  }

  datatype Dispatched = Handled(disposition: Disposition) | NeedsApproval(actionTypeId: string) | Rejected | SeamCorrupt

  datatype Call = Call(command: string, args: Args)

  /** The decision on one call, given the Action Types on disk. */
  function Decision(cli: Cli, onDisk: Option<seq<Action>>, call: Call): Dispatched {
    if call.command !in cli.typed then Handled(Untyped)
    else if call.args.positional == [] || call.args.positional[0] == "" then Handled(Unmapped)
    else if onDisk.None? || !AllAccepted(cli.reg, onDisk.value) then SeamCorrupt
    else
      var d := Validate(cli, Index(onDisk.value), call.command, call.args);
      if d.Invalid? then Rejected
      else if d.Typed? && d.capability.effect.Write? && !Approved(call.args) then NeedsApproval(d.actionTypeId)
      else Handled(d)
  }

  // ---- which calls are mutations, and what becomes of them ----

  const CONTEXT_WRITES :=
    ["request", "ingest", "refresh", "delete", "load", "benchmark", "feedback", "projection-rebuild"]

  const CONTEXT_READS :=
    ["verify", "list", "show", "stats", "preview", "source-adapter", "source", "retention", "projection-status"]

  /** The context command is asked for a mutation; only a projection is told by the end of the line. */
  predicate ContextWrites(line: seq<string>) {
    line != [] && (line[0] in CONTEXT_WRITES || (line[0] == "projection" && line[|line| - 1] == "rebuild"))
  }

  predicate ContextReads(line: seq<string>) {
    line != [] && (line[0] in CONTEXT_READS || (line[0] == "projection" && line[|line| - 1] != "rebuild"))
  }

  /** The key is set to something that counts as true. */
  predicate Confirms(args: Args, key: string) {
    key in args.keys && args.keys[key] !in [Flag(false), Text(""), Missing]
  }

  predicate Confirmed(args: Args) {
    Confirms(args, "yes") || Confirms(args, "confirm")
  }

  /** The call names a typed command and a subcommand of it. */
  predicate NamesTyped(cli: Cli, call: Call) {
    call.command in cli.typed && call.args.positional != [] && call.args.positional[0] != ""
  }

  /** Some write flag of the list is given with a value other than false. */
  predicate GivesOneOf(flags: seq<string>, args: Args) {
    exists w :: w in flags && KeyOfFlag(w) in args.keys && args.keys[KeyOfFlag(w)] !in [Flag(false), Missing]
  }

  /** The invocation asks for a mutation: by its command, or by a flag that makes it one. */
  predicate IsWrite(cli: Cli, call: Call) {
    NamesTyped(cli, call) &&
    var line := call.args.positional;
    if call.command == "context" then ContextWrites(line)
    else
      var key := CapabilityKey(call.command, line[0]);
      key in cli.reg && (cli.reg[key].effect == Write || GivesOneOf(cli.reg[key].writeFlags, call.args))
  }

  predicate IsRead(cli: Cli, call: Call) {
    NamesTyped(cli, call) &&
    var line := call.args.positional;
    if call.command == "context" then ContextReads(line)
    else
      var key := CapabilityKey(call.command, line[0]);
      key in cli.reg && cli.reg[key].effect == Read && !GivesOneOf(cli.reg[key].writeFlags, call.args)
  }

  predicate Intact(cli: Cli, onDisk: Option<seq<Action>>) {
    onDisk.Some? && AllAccepted(cli.reg, onDisk.value)
  }

  lemma ContextExact(line: seq<string>)
    requires line != []
    ensures var c := ResolveContext(line[0], line);
      && (ContextWrites(line) <==> c.Some? && c.value.effect == Write)
      && (ContextReads(line) <==> c.Some? && c.value.effect == Read)
      && (c.Some? ==> c.value.name == ContextName(line[0]) && (c.value.approvalRequired <==> ContextWrites(line)))
  {
    assert "projection" <= "projection-status" && "projection" <= "projection-rebuild";
    if "projection" <= line[0] {
      assert line[0][..10] == "projection" && line[0][0] == 'p' && line[0][2] == 'o';
    }
  }

  lemma WriteFlagGiven(flags: seq<string>, args: Args)
    ensures WriteFlagBound(flags, args) <==> GivesOneOf(flags, args)
  {
  }

  /** The context action a word of the command line names. */
  function ContextName(word: string): string {
    if "projection" <= word then "projection" else if word == "source" then "source-adapter" else word
  }

  /**
   * The classification says of the call what it is: its key, whether it is a mutation, and whether it is a read
   * that may be executed directly, as registered and without a write flag.
   */
  predicate Describes(cli: Cli, call: Call, c: Classified) {
    NamesTyped(cli, call) &&
    var line := call.args.positional;
    && (c.effect == Write <==> IsWrite(cli, call))
    && if call.command == "context" then
         c.key == "context/" + ContextName(line[0]) && (c.directReadOnlyExec <==> ContextReads(line))
       else
         var key := call.command + "/" + line[0];
         && c.key == key && key in cli.reg
         && (c.directReadOnlyExec <==>
              cli.reg[key].directReadOnlyExec && !GivesOneOf(cli.reg[key].writeFlags, call.args))
  }

  /** The classification of a call, by its names and values alone. */
  lemma ClassifiedExact(cli: Cli, call: Call)
    requires NamesTyped(cli, call)
    ensures var c := Classify(cli, call.command, call.args);
      && (IsWrite(cli, call) <==> c.Some? && c.value.effect == Write)
      && (IsRead(cli, call) <==> c.Some? && c.value.effect == Read)
      && (c.Some? ==> Describes(cli, call, c.value))
  {
    var line := call.args.positional;
    if call.command == "context" {
      ContextExact(line);
    } else {
      var key := CapabilityKey(call.command, line[0]);
      if key in cli.reg {
        WriteFlagGiven(cli.reg[key].writeFlags, call.args);
      }
    }
  }

  lemma ApprovedExact(args: Args)
    ensures Approved(args) <==> Confirmed(args)
  {
  }

  /** What answers for a call: the last action on disk that maps its key, or else its context action. */
  ghost predicate AnswersFor(onDisk: Option<seq<Action>>, call: Call, id: string)
    requires call.args.positional != []
  {
    var line := call.args.positional;
    var key := CapabilityKey(call.command, line[0]);
    onDisk.Some? &&
    if exists a :: a in onDisk.value && Maps(a, key) then
      exists a :: LastMapping(onDisk.value, key, a) && a.actionTypeId == id
    else
      && call.command == "context"
      && id == "amber.context." + ContextName(line[0])
  }

  /** The call is handled as what answers for it. */
  ghost predicate AnsweredAs(cli: Cli, onDisk: Option<seq<Action>>, call: Call, d: Disposition)
    requires call.args.positional != []
  {
    d.Typed? && AnswersFor(onDisk, call, d.actionTypeId) && Describes(cli, call, d.capability)
  }

  /** A typed call with an intact seam is validated as what answers for it, or not at all. */
  lemma ValidatedExact(cli: Cli, onDisk: Option<seq<Action>>, call: Call)
    requires Intact(cli, onDisk) && (IsWrite(cli, call) || IsRead(cli, call))
    ensures var d := Validate(cli, Index(onDisk.value), call.command, call.args);
      && (d.Typed? || d.Invalid?)
      && (d.Typed? ==> AnsweredAs(cli, onDisk, call, d))
      && (d.Invalid? ==> forall id :: !AnswersFor(onDisk, call, id))
  {
    var line := call.args.positional;
    ClassifiedExact(cli, call);
    IndexLast(onDisk.value, CapabilityKey(call.command, line[0]));
    if call.command == "context" {
      ContextExact(line);
    }
  }

  /**
   * A mutation runs only when confirmed. With an intact seam it then runs, and otherwise asks for the approval
   * of the action that answers for it; a call that nothing answers for is refused.
   */
  lemma WriteDecided(cli: Cli, onDisk: Option<seq<Action>>, call: Call)
    requires IsWrite(cli, call)
    ensures var r := Decision(cli, onDisk, call);
      && (r.Handled? ==> Confirmed(call.args))
      && (r.SeamCorrupt? <==> !Intact(cli, onDisk))
      && (r.NeedsApproval? ==> AnswersFor(onDisk, call, r.actionTypeId) && !Confirmed(call.args))
      && (r.Handled? ==> AnsweredAs(cli, onDisk, call, r.disposition))
      && (r.Rejected? ==> forall id :: !AnswersFor(onDisk, call, id))
  {
    ApprovedExact(call.args);
    if Intact(cli, onDisk) {
      ValidatedExact(cli, onDisk, call);
    }
  }

  /** A read with an intact seam runs without being asked for anything, if something answers for it. */
  lemma ReadDecided(cli: Cli, onDisk: Option<seq<Action>>, call: Call)
    requires IsRead(cli, call)
    ensures var r := Decision(cli, onDisk, call);
      && !r.NeedsApproval?
      && (r.SeamCorrupt? <==> !Intact(cli, onDisk))
      && (r.Handled? ==> AnsweredAs(cli, onDisk, call, r.disposition))
      && (r.Rejected? ==> forall id :: !AnswersFor(onDisk, call, id))
  {
    if Intact(cli, onDisk) {
      ValidatedExact(cli, onDisk, call);
    }
  }

  /** Any other call of a typed command is refused, unless the command registry knows it as untyped. */
  lemma OtherDecided(cli: Cli, onDisk: Option<seq<Action>>, call: Call)
    requires !IsWrite(cli, call) && !IsRead(cli, call)
    ensures var r := Decision(cli, onDisk, call);
      if call.command !in cli.typed then r == Handled(Untyped)
      else if call.args.positional == [] || call.args.positional[0] == "" then r == Handled(Unmapped)
      else if !Intact(cli, onDisk) then r == SeamCorrupt
      else if CapabilityKey(call.command, call.args.positional[0]) in cli.knownUntyped then r == Handled(Untyped)
      else r == Rejected
  {
    if NamesTyped(cli, call) {
      ClassifiedExact(cli, call);
    }
  }

  // ---- scripts/amber.js: what runs in front of dispatch ----

  datatype Front = ShowVersion | ShowUsage | NoSuchCommand | Dispatches(call: Call)

  const SHORTCUTS := {"", "--version", "-v", "--all", "help", "--help", "-h"}

  predicate HelpAsked(args: Args) {
    "help" in args.keys && args.keys["help"].Truthy()
  }

  function FrontOf(cli: Cli, specs: FlagTable, argv: seq<string>, cwd: string): Front {
    if argv == [] then ShowUsage
    else if argv[0] == "--version" || argv[0] == "-v" then ShowVersion
    else if argv[0] == "--all" then ShowUsage
    else if argv[0] == "help" then
      if |argv| == 1 || argv[1] == "" then ShowUsage
      else if argv[1] in cli.commands then ShowUsage else NoSuchCommand
    else if argv[0] == "" || argv[0] == "--help" || argv[0] == "-h" then ShowUsage
    else if argv[0] !in cli.commands then NoSuchCommand
    else
      var args := ParseArgs(argv[1..], specs, Defaults(cwd));
      if HelpAsked(args) then ShowUsage else Dispatches(Call(argv[0], args))
  }

  datatype Ran = Shown(front: Front) | Answered(dispatched: Dispatched) {
    predicate HandledAsRead() {
      Answered? && dispatched.Handled? && dispatched.disposition.Typed?
        && dispatched.disposition.capability.effect.Read?
    }
  }

  /** One run of the CLI. */
  function RunResult(cli: Cli, onDisk: Option<seq<Action>>, specs: FlagTable, argv: seq<string>, cwd: string): Ran {
    var front := FrontOf(cli, specs, argv, cwd);
    if front.Dispatches? then Answered(Decision(cli, onDisk, front.call)) else Shown(front)
  }

  class Dispatcher {
    const cli: Cli
    /** The Action Types on disk; None while one of them cannot be parsed. */
    const onDisk: Option<seq<Action>>
    var index: Option<map<string, Action>>
    var handled: seq<Call>

    predicate SeamIntact() {
      onDisk.Some? && AllAccepted(cli.reg, onDisk.value)
    }

    /** The cache is the index of a valid whitelist, and no handler has run an unapproved mutation. */
    ghost predicate Valid()
      reads this
    {
      && (index.Some? ==> SeamIntact() && index.value == Index(onDisk.value))
      && (forall call :: call in handled && IsWrite(cli, call) ==> Confirmed(call.args))
    }

    constructor (cli: Cli, onDisk: Option<seq<Action>>)
      ensures Valid() && this.cli == cli && this.onDisk == onDisk && handled == [] && index.None?
    {
      this.cli := cli;
      this.onDisk := onDisk;
      index := None;
      handled := [];
    }

    /** Reads the seam on first use; a corrupt one is never cached. */
    method LoadTypedSeam() returns (ok: bool)
      requires Valid()
      modifies this
      ensures Valid() && handled == old(handled)
      ensures ok <==> SeamIntact()
      ensures ok ==> index.Some?
    {
      if index.Some? {
        return true;
      }
      if onDisk.None? {
        return false;
      }
      var actions := onDisk.value;
      var valid, findings := ValidateWhitelist(cli.reg, actions);
      if !valid {
        return false;
      }
      var byCapability := BuildIndex(actions);
      index := Some(byCapability);
      return true;
    }

    method Dispatch(command: string, args: Args) returns (r: Dispatched)
      requires Valid()
      modifies this
      ensures Valid()
      ensures handled == old(handled) + if r.Handled? then [Call(command, args)] else []
      ensures r == Decision(cli, onDisk, Call(command, args))
      ensures IsWrite(cli, Call(command, args)) && !Confirmed(args) ==> !r.Handled? && handled == old(handled)
    {
      if IsWrite(cli, Call(command, args)) {
        WriteDecided(cli, onDisk, Call(command, args));
      }
      var disposition: Disposition;
      if command !in cli.typed {
        disposition := Untyped;
      } else if |args.positional| == 0 || args.positional[0] == "" {
        disposition := Unmapped;
      } else {
        var ok := LoadTypedSeam();
        if !ok {
          return SeamCorrupt;
        }
        disposition := Validate(cli, index.value, command, args);
      }
      if disposition.Invalid? {
        return Rejected;
      }
      if disposition.Typed? && disposition.capability.effect.Write? && !Approved(args) {
        return NeedsApproval(disposition.actionTypeId);
      }
      handled := handled + [Call(command, args)];
      return Handled(disposition);
    }

    method Run(specs: FlagTable, argv: seq<string>, cwd: string) returns (r: Ran)
      requires Valid()
      modifies this
      ensures Valid()
      ensures r == RunResult(cli, onDisk, specs, argv, cwd)
      ensures handled == old(handled)
        + (if r.Answered? && r.dispatched.Handled? then [FrontOf(cli, specs, argv, cwd).call] else [])
    {
      if |argv| > 0 && (argv[0] == "--version" || argv[0] == "-v") {
        return Shown(ShowVersion);
      }
      if |argv| > 0 && argv[0] == "--all" {
        return Shown(ShowUsage);
      }
      if |argv| > 0 && argv[0] == "help" {
        if |argv| == 1 || argv[1] == "" || argv[1] in cli.commands {
          return Shown(ShowUsage);
        }
        return Shown(NoSuchCommand);
      }
      if |argv| == 0 || argv[0] == "" || argv[0] == "--help" || argv[0] == "-h" {
        return Shown(ShowUsage);
      }
      if argv[0] !in cli.commands {
        return Shown(NoSuchCommand);
      }
      var args := RunParseArgs(argv[1..], specs, cwd);
      if HelpAsked(args) {
        return Shown(ShowUsage);
      }
      var d := Dispatch(argv[0], args);
      return Answered(d);
    }
  }

  /** The loop over the actions and their mappings; a later mapping of a key replaces an earlier one. */
  method BuildIndex(actions: seq<Action>) returns (byCapability: map<string, Action>)
    requires forall a :: a in actions ==> a.execution.Some?
    ensures byCapability == Index(actions)
  {
    byCapability := map[];
    for i := 0 to |actions|
      invariant byCapability == Index(actions[..i])
    {
      assert actions[..i + 1][..i] == actions[..i];
      var a := actions[i];
      var entries := a.execution.value.Entries();
      ghost var before := byCapability;
      for j := 0 to |entries|
        invariant byCapability == IndexEntries(a, entries[..j], before)
      {
        assert entries[..j + 1][..j] == entries[..j];
        byCapability := byCapability[KeyOf(entries[j].1) := a];
      }
      assert entries[..|entries|] == entries;
    }
    assert actions[..|actions|] == actions;
  }
}

/** scripts/lib/core/cli-output.js: the rows of the flag table that the shipped read actions meet. */
module FlagRows {
  import opened Wrappers
  import opened Text
  import opened ActionContracts
  import opened CliSeam
  import opened CommandCapabilities
  import opened ParsedFlags
  import opened SpawnedLines
  import opened TwoSeams

  /** A flag's name without its hyphens, which is also its key, and whether it takes no value. */
  type Row = (string, bool)

  const ROWS: seq<Row> := [
    ("home", false), ("format", false), ("goal", false), ("route", false), ("feature", false), ("page", false),
    ("suite", false), ("session", false), ("output", false), ("out", false), ("execute", true), ("yes", true),
    ("confirm", true), ("json", true), ("help", true), ("target", false)
  ]

  function RowSpec(r: Row): FlagSpec {
    FlagSpec(r.0, r.1, None)
  }

  function TableOf(rows: seq<Row>): FlagTable {
    if rows == [] then map[] else
      var last := rows[|rows| - 1];
      TableOf(rows[..|rows| - 1])["--" + last.0 := RowSpec(last)]
  }

  const FLAG_ROWS: FlagTable := TableOf(ROWS)["-h" := FlagSpec("help", true, None)]

  // ---- the rows are the table ----

  lemma {:induction false} RowOfFlag(rows: seq<Row>, f: string) returns (i: nat)
    requires f in TableOf(rows)
    ensures i < |rows| && f == "--" + rows[i].0 && TableOf(rows)[f] == RowSpec(rows[i])
    decreases |rows|
  {
    var n := |rows| - 1;
    if f == "--" + rows[n].0 {
      i := n;
    } else {
      i := RowOfFlag(rows[..n], f);
    }
  }

  lemma {:induction false} RowListed(rows: seq<Row>, i: nat)
    requires i < |rows|
    ensures "--" + rows[i].0 in TableOf(rows)
    decreases |rows|
  {
    var n := |rows| - 1;
    if i < n {
      RowListed(rows[..n], i);
    }
  }

  lemma RowsPlain(i: nat)
    requires i < |ROWS|
    ensures PlainName(ROWS[i].0) && |ROWS[i].0| >= 3 && (ROWS[i].0 == "help" ==> ROWS[i].1)
  {
    assert i != 14 ==> |ROWS[i].0| != 4 || ROWS[i].0[0] != 'h' || ROWS[i].0[1] != 'e';
  }

  lemma RowsDistinct(i: nat, j: nat)
    requires i < |ROWS| && j < |ROWS| && ROWS[i].0 == ROWS[j].0
    ensures i == j
  {
    var a, b := ROWS[i].0, ROWS[j].0;
    assert |a| == |b| && a[0] == b[0] && a[1] == b[1];
  }

  /** Every row is found under its flag. */
  lemma RowFound(i: nat)
    requires i < |ROWS|
    ensures "--" + ROWS[i].0 in FLAG_ROWS && FLAG_ROWS["--" + ROWS[i].0] == RowSpec(ROWS[i])
  {
    var f := "--" + ROWS[i].0;
    RowListed(ROWS, i);
    var j := RowOfFlag(ROWS, f);
    assert f[2..] == ROWS[i].0 && ("--" + ROWS[j].0)[2..] == ROWS[j].0;
    RowsDistinct(i, j);
    RowsPlain(i);
    assert |f| != |"-h"|;
  }

  /** What any flag of the table looks like. */
  lemma FlagShape(f: string) returns (name: string)
    requires f in FLAG_ROWS
    ensures f != "" && f[0] == '-' && PlainName(name)
    ensures f == "-h" || f == "--" + name
    ensures FLAG_ROWS[f].key == name && FLAG_ROWS[f].accumulate == None
    ensures name == "help" ==> FLAG_ROWS[f].boolean
    ensures f == "-h" ==> name == "help"
  {
    if f == "-h" {
      name := "help";
      RowsPlain(14);
    } else {
      var i := RowOfFlag(ROWS, f);
      RowsPlain(i);
      name := ROWS[i].0;
    }
  }

  // ---- the conventions hold of it ----

  lemma {:induction false} CamelKeeps(s: string)
    requires forall i :: 0 <= i < |s| ==> IsLower(s[i])
    ensures Camel(s) == s
    decreases |s|
  {
    if s != "" {
      assert s[0] != '-';
      CamelKeeps(s[1..]);
      assert s == [s[0]] + s[1..];
    }
  }

  lemma NameConventional(name: string)
    requires PlainName(name)
    ensures LowerFlag("--" + name) && KeyOfFlag("--" + name) == name
  {
    CamelKeeps(name);
    var f := "--" + name;
    assert f[2..] == name;
    assert forall i :: 0 <= i < |f| ==> f[i] == '-' || IsLower(f[i]);
  }

  /** The three write flags of the registry are rows 8, 9 and 10. */
  lemma WriteRow(w: string) returns (i: nat)
    requires w in ["--execute", "--output", "--out"]
    ensures 8 <= i <= 10 && w == "--" + ROWS[i].0
  {
    i := if w == "--output" then 8 else if w == "--out" then 9 else 10;
    assert "--output" == "--" + "output" && "--out" == "--" + "out" && "--execute" == "--" + "execute";
  }

  lemma WriteRowConventional(w: string)
    requires w in ["--execute", "--output", "--out"]
    ensures LowerFlag(w) && w in FLAG_ROWS && FLAG_ROWS[w].key == KeyOfFlag(w)
    ensures KeyOfFlag(w) != "target" && KeyOfFlag(w) != "help"
    ensures forall f :: f in FLAG_ROWS ==>
      ((LowerFlag(f) && FLAG_ROWS[f].key == KeyOfFlag(f)) || FLAG_ROWS[f].key != KeyOfFlag(w))
      && FLAG_ROWS[f].accumulate != Some(KeyOfFlag(w))
  {
    var i := WriteRow(w);
    RowFound(i);
    RowsPlain(i);
    NameConventional(ROWS[i].0);
    assert ROWS[i].0[0] == 'o' || ROWS[i].0[0] == 'e';
    forall f | f in FLAG_ROWS
      ensures (LowerFlag(f) && FLAG_ROWS[f].key == KeyOfFlag(f)) || FLAG_ROWS[f].key != KeyOfFlag(w)
      ensures FLAG_ROWS[f].accumulate != Some(KeyOfFlag(w))
    {
      var name := FlagShape(f);
      if f != "-h" {
        NameConventional(name);
      }
    }
  }

  // ---- what ships beside the flag table ----

  /** The commands of the registry, which the startup check makes the typed ones. */
  function TypedOf(reg: Registry): set<string> {
    set k | k in reg :: CommandOf(k)
  }

  function ShippedCli(commands: set<string>, knownUntyped: set<string>): Cli {
    Cli(COMMAND_CAPABILITIES, commands, TypedOf(COMMAND_CAPABILITIES), knownUntyped)
  }

  lemma TypedByCheck(reg: Registry)
    ensures exists definitions ::
      ValidateCommandRegistry(definitions, reg) == Valid && TypedOf(reg) == set c | c in definitions && definitions[c]
  {
    var typed := TypedOf(reg);
    var definitions := map c | c in typed :: true;
    assert (set c | c in definitions && definitions[c]) == typed;
    assert ValidateCommandRegistry(definitions, reg) == Valid;
  }

  /** Every flag of the table starts with a hyphen. */
  ghost predicate Dashed(specs: FlagTable) {
    forall f :: f in specs ==> f != "" && f[0] == '-'
  }

  lemma PlainNoShortcut(command: string)
    requires PlainName(command) && command != "help"
    ensures command !in SHORTCUTS
  {
    PlainNoSlash(command);
  }

  lemma ShippedName(specs: FlagTable, k: string)
    requires Dashed(specs) && k in COMMAND_CAPABILITIES
    ensures CommandOf(k) !in SHORTCUTS && exists command, sub :: NameParts(specs, k, command, sub)
  {
    var i := EntryOfKey(ENTRIES, k);
    EntryKept(i);
    EntryName(specs, ENTRIES[i]);
  }

  lemma EntryName(specs: FlagTable, e: Entry)
    requires Dashed(specs) && Kept(e)
    ensures CommandOf(EntryKey(e)) !in SHORTCUTS && NameParts(specs, EntryKey(e), e.0, e.1)
  {
    PlainNoSlash(e.0);
    PlainNoSlash(e.1);
    KeyCommand(e.0, e.1);
    PlainNoShortcut(e.0);
  }

  lemma TypedNoShortcut(reg: Registry)
    requires forall k :: k in reg ==> CommandOf(k) !in SHORTCUTS
    ensures TypedOf(reg) !! SHORTCUTS
  {
  }

  /** The two registered context commands have the effect of the context actions of their names, and no write flags. */
  lemma ShippedContextAgrees(sub: string, rest: seq<string>)
    requires CapabilityKey("context", sub) in COMMAND_CAPABILITIES
    ensures var c, cap := ResolveContext(sub, [sub] + rest), COMMAND_CAPABILITIES[CapabilityKey("context", sub)];
      c.Some? && c.value.effect == cap.effect && cap.writeFlags == []
  {
    var i := EntryOfKey(ENTRIES, CapabilityKey("context", sub));
    EntryKept(i);
    PlainNoSlash(ENTRIES[i].0);
    PlainNoSlash(ENTRIES[i].1);
    SameKey(ENTRIES[i].0, ENTRIES[i].1, "context", sub);
    ContextEntries(i);
  }

  lemma ShippedNames(specs: FlagTable)
    requires Dashed(specs)
    ensures forall k :: k in COMMAND_CAPABILITIES ==> exists command, sub :: NameParts(specs, k, command, sub)
    ensures forall k :: k in COMMAND_CAPABILITIES ==> CommandOf(k) !in SHORTCUTS
  {
    forall k | k in COMMAND_CAPABILITIES
      ensures CommandOf(k) !in SHORTCUTS && exists command, sub :: NameParts(specs, k, command, sub)
    {
      ShippedName(specs, k);
    }
  }

  lemma ShippedContexts()
    ensures forall sub, rest: seq<string> :: CapabilityKey("context", sub) in COMMAND_CAPABILITIES ==>
      var c := ResolveContext(sub, [sub] + rest);
      && c.Some? && c.value.effect == COMMAND_CAPABILITIES[CapabilityKey("context", sub)].effect
      && COMMAND_CAPABILITIES[CapabilityKey("context", sub)].writeFlags == []
  {
    forall sub, rest: seq<string> | CapabilityKey("context", sub) in COMMAND_CAPABILITIES
      ensures var c := ResolveContext(sub, [sub] + rest);
        && c.Some? && c.value.effect == COMMAND_CAPABILITIES[CapabilityKey("context", sub)].effect
        && COMMAND_CAPABILITIES[CapabilityKey("context", sub)].writeFlags == []
    {
      ShippedContextAgrees(sub, rest);
    }
  }

  /** A flag table that has these rows, among any others. */
  ghost predicate Extends(specs: FlagTable) {
    forall f :: f in FLAG_ROWS ==> f in specs && specs[f] == FLAG_ROWS[f]
  }

  /** The CLI as it ships: the shipped registry, and a table with these rows that agrees with it. */
  ghost predicate ShippedTables(cli: Cli, specs: FlagTable) {
    cli.reg == COMMAND_CAPABILITIES && TablesAgree(cli, specs) && Extends(specs)
  }

  lemma ShippedBasics()
    ensures "--target" in FLAG_ROWS && FLAG_ROWS["--target"] == FlagSpec("target", false, None)
    ensures "--help" in FLAG_ROWS
    ensures HelpIsBoolean(FLAG_ROWS)
  {
    RowFound(15);
    RowFound(14);
    assert "--" + "target" == "--target" && "--" + "help" == "--help";
    forall f | f in FLAG_ROWS && Sets(FLAG_ROWS[f], "help") ensures FLAG_ROWS[f].boolean && FLAG_ROWS[f].key == "help" {
      var name := FlagShape(f);
    }
  }

  /** A table that contains the rows and keeps to the conventions agrees with the shipped registry. */
  lemma ExtensionAgrees(specs: FlagTable, commands: set<string>, knownUntyped: set<string>)
    requires Extends(specs) && Dashed(specs) && HelpIsBoolean(specs) && ConventionalTable(specs, COMMAND_CAPABILITIES)
    requires TypedOf(COMMAND_CAPABILITIES) <= commands
    ensures ShippedTables(ShippedCli(commands, knownUntyped), specs)
  {
    ShippedBasics();
    ShippedNames(specs);
    ShippedContexts();
    TypedByCheck(COMMAND_CAPABILITIES);
    TypedNoShortcut(COMMAND_CAPABILITIES);
  }
}
